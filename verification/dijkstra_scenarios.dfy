/**
 * Concrete instances of `find_shortest_paths`: the six-vertex demonstration graph
 * of the `__main__` block of `task3.py`, and small edge cases (a lone vertex, a
 * disconnected vertex, an unknown source, a neighbour that is not a key).
 */
module DijkstraScenarios {
  import opened Wrappers
  import opened Graphs
  import opened Dijkstra

  /** The demonstration graph, undirected, each edge listed from both ends. */
  const DemoGraph: Graph<char> := map[
    'S' := [('A', 7), ('B', 2)],
    'A' := [('S', 7), ('B', 3), ('C', 4)],
    'B' := [('S', 2), ('A', 3), ('D', 5)],
    'C' := [('A', 4), ('D', 1), ('E', 7)],
    'D' := [('B', 5), ('C', 1), ('E', 2)],
    'E' := [('C', 7), ('D', 2)]
  ]

  /** The shortest distances from 'S' in the demonstration graph. */
  const DemoDistances: map<char, Dist> := map[
    'S' := Fin(0), 'A' := Fin(5), 'B' := Fin(2), 'C' := Fin(8), 'D' := Fin(7), 'E' := Fin(9)
  ]

  /** The empty walk reaches the source at weight 0. */
  lemma SourceAchievable(g: Graph<char>, source: char)
    ensures Achievable(g, source, source, 0)
  {
    assert IsWalk(g, source, []);
  }

  /** Every edge of the demonstration graph leads to one of its keys. */
  lemma DemoGraphClosed()
    ensures Closed(DemoGraph)
  {
    forall u: char, e: (char, nat) | u in DemoGraph && e in DemoGraph[u] ensures e.0 in DemoGraph {
      assert u in "SABCDE";
    }
  }

  /** `DemoDistances` satisfy the triangle inequality along every edge. */
  lemma DemoTriangle()
    ensures Triangle(DemoGraph, DemoDistances)
  {
    var g, m := DemoGraph, DemoDistances;
    forall u: char, e: (char, nat) | u in m && u in g && m[u].Fin? && e in g[u]
      ensures e.0 in m && AtMost(m[e.0], Fin(m[u].n + e.1))
    {
      if u == 'S' { assert e in g['S']; }
      else if u == 'A' { assert e in g['A']; }
      else if u == 'B' { assert e in g['B']; }
      else if u == 'C' { assert e in g['C']; }
      else if u == 'D' { assert e in g['D']; }
      else { assert u == 'E'; }
    }
  }

  /** Walks from 'S' of weights 0, 5, 2, 8, 7 and 9 end at S, A, B, C, D and E. */
  lemma DemoWalks()
    ensures Achievable(DemoGraph, 'S', 'S', 0) && Achievable(DemoGraph, 'S', 'A', 5)
    ensures Achievable(DemoGraph, 'S', 'B', 2) && Achievable(DemoGraph, 'S', 'C', 8)
    ensures Achievable(DemoGraph, 'S', 'D', 7) && Achievable(DemoGraph, 'S', 'E', 9)
  {
    var g := DemoGraph;
    SourceAchievable(g, 'S');
    AchievableExtend(g, 'S', 'S', 0, ('B', 2));
    AchievableExtend(g, 'S', 'B', 2, ('A', 3));
    AchievableExtend(g, 'S', 'B', 2, ('D', 5));
    AchievableExtend(g, 'S', 'D', 7, ('C', 1));
    AchievableExtend(g, 'S', 'D', 7, ('E', 2));
  }

  /** Six walks from 'S' of the weights in `DemoDistances` cover its every entry. */
  lemma WalksCoverDistances(g: Graph<char>)
    requires Achievable(g, 'S', 'S', 0) && Achievable(g, 'S', 'A', 5)
    requires Achievable(g, 'S', 'B', 2) && Achievable(g, 'S', 'C', 8)
    requires Achievable(g, 'S', 'D', 7) && Achievable(g, 'S', 'E', 9)
    ensures forall v | v in DemoDistances && DemoDistances[v].Fin? :: Achievable(g, 'S', v, DemoDistances[v].n)
  {
    forall v | v in DemoDistances && DemoDistances[v].Fin?
      ensures Achievable(g, 'S', v, DemoDistances[v].n)
    {
      assert v in "SABCDE";
    }
  }

  /** Each entry of `DemoDistances` is the weight of a walk from 'S'. */
  lemma DemoAchievable()
    ensures forall v | v in DemoDistances && DemoDistances[v].Fin? ::
              Achievable(DemoGraph, 'S', v, DemoDistances[v].n)
  {
    DemoWalks();
    WalksCoverDistances(DemoGraph);
  }

  /**
   * Any table over the demonstration graph's keys holding shortest distances
   * from 'S' is `DemoDistances`.
   */
  lemma DemoDistancesUnique(dist: map<char, Dist>)
    requires dist.Keys == DemoGraph.Keys
    requires ShortestDistances(DemoGraph, 'S', dist)
    ensures dist == DemoDistances
  {
    DemoShortest();
    ShortestDistancesUnique(DemoGraph, 'S', dist, DemoDistances);
  }

  /** `DemoDistances` holds the shortest distances from 'S' over the keys of the graph. */
  lemma DemoShortest()
    ensures DemoDistances.Keys == DemoGraph.Keys
    ensures ShortestDistances(DemoGraph, 'S', DemoDistances)
  {
    DemoTriangle();
    TriangleBoundsAllWalks(DemoGraph, 'S', DemoDistances);
    DemoAchievable();
  }

  /** The demonstration run from 'S' yields S:0, A:5, B:2, C:8, D:7, E:9. */
  method DemoRun() returns (r: Result<map<char, Dist>, Error<char>>)
    ensures r == Success(DemoDistances)
  {
    DemoGraphClosed();
    ClosedIsClosedFrom(DemoGraph, 'S');
    r := FindShortestPaths(DemoGraph, 'S');
    DemoDistancesUnique(r.value);
  }

  /** A single vertex without edges is at distance 0 from itself. */
  method SingleVertexRun() returns (r: Result<map<char, Dist>, Error<char>>)
    ensures r == Success(map['X' := Fin(0)])
  {
    var g: Graph<char> := map['X' := []];
    ClosedIsClosedFrom(g, 'X');
    r := FindShortestPaths(g, 'X');
    assert r.Success?;
    assert r.value.Keys == {'X'} && r.value['X'] == Fin(0);
    assert r.value == map['X' := Fin(0)];
  }

  /** A vertex with no walk to it stays at `Inf`. */
  method DisconnectedRun() returns (r: Result<map<char, Dist>, Error<char>>)
    ensures r == Success(map['X' := Fin(0), 'Y' := Inf])
  {
    var g: Graph<char> := map['X' := [], 'Y' := []];
    ClosedIsClosedFrom(g, 'X');
    r := FindShortestPaths(g, 'X');
    var m := map['X' := Fin(0), 'Y' := Inf];
    TriangleBoundsAllWalks(g, 'X', m);
    SourceAchievable(g, 'X');
    ShortestDistancesUnique(g, 'X', r.value, m);
  }

  /** A source that is not a key raises `KeyError` naming it. */
  method UnknownSourceRun() returns (r: Result<map<char, Dist>, Error<char>>)
    ensures r == Failure(KeyError('Z'))
  {
    r := FindShortestPaths(map['A' := []], 'Z');
  }

  /** A reachable neighbour that is not a key raises `KeyError` naming it. */
  method MissingNeighbourRun() returns (r: Result<map<char, Dist>, Error<char>>)
    ensures r == Failure(KeyError('B'))
  {
    var g: Graph<char> := map['A' := [('B', 1)]];
    r := FindShortestPaths(g, 'A');
    SourceAchievable(g, 'A');
    AchievableExtend(g, 'A', 'A', 0, ('B', 1));
    if r.Success? {
      assert false;
    }
    ReachableIsAOrB(g, r.error.vertex);
  }

  /** In the graph A -> B, only A and B are reachable from A. */
  lemma ReachableIsAOrB(g: Graph<char>, v: char)
    requires g == map['A' := [('B', 1)]]
    requires Reachable(g, 'A', v)
    ensures v == 'A' || v == 'B'
  {
    var p :| IsWalk(g, 'A', p) && End('A', p) == v;
    if p != [] {
      var q := p[..|p| - 1];
      assert p[|p| - 1] in g[End('A', q)];
    }
  }
}
