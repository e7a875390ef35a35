/**
 * `find_shortest_paths`: Dijkstra's single-source shortest-path algorithm with
 * a lazily cleaned priority queue.
 *
 * The binary heap is modelled as a multiset of (distance, vertex) entries with
 * an extract-min that may return any entry of least distance; the vertex
 * tie-break of Python's `heapq`, which compares vertices, does not affect the distances computed.
 */
module Dijkstra {
  import opened Wrappers
  import opened Graphs

  /** The one error the solver raises: a `KeyError` naming the vertex that is not a key. */
  datatype Error<V> = KeyError(vertex: V)

  /** The mutable state of the loop: the distance table and the frontier. */
  datatype State<V(==)> = State(dist: map<V, Dist>, frontier: multiset<(nat, V)>)

  /** `heappop`: remove and return an entry of least distance. */
  method ExtractMin<V(==)>(frontier: multiset<(nat, V)>) returns (e: (nat, V), rest: multiset<(nat, V)>)
    requires frontier != multiset{}
    ensures e in frontier
    ensures forall x | x in frontier :: e.0 <= x.0
    ensures rest == frontier - multiset{e}
  {
    var unseen := frontier;
    e :| e in unseen;
    while unseen != multiset{}
      invariant unseen <= frontier
      invariant e in frontier
      invariant forall x | x in frontier :: x in unseen || e.0 <= x.0
      decreases |unseen|
    {
      var y: (nat, V) :| y in unseen;
      if y.0 < e.0 {
        e := y;
      }
      unseen := unseen - multiset{y};
    }
    rest := frontier - multiset{e};
  }

  /**
   * Relax one edge `(neighbour, weight)` out of a vertex popped at distance
   * `d`: a neighbour that is not a key raises `KeyError`; a candidate
   * `d + weight` strictly below the recorded distance replaces it and pushes
   * one frontier entry; otherwise nothing changes.
   */
  function RelaxEdge<V(==)>(st: State<V>, d: nat, edge: (V, nat)): (r: Result<State<V>, Error<V>>)
    ensures r.Failure? <==> edge.0 !in st.dist
    ensures r.Failure? ==> r.error == KeyError(edge.0)
    ensures r.Success? ==>
      && r.value.dist.Keys == st.dist.Keys
      && AtMost(r.value.dist[edge.0], Fin(d + edge.1))
      && (forall x | x in st.dist && x != edge.0 :: r.value.dist[x] == st.dist[x])
      && AtMost(r.value.dist[edge.0], st.dist[edge.0])
      && (r.value.dist == st.dist <==> r.value.frontier == st.frontier)
      && (r.value.dist != st.dist ==>
            && r.value.dist[edge.0] == Fin(d + edge.1)
            && Less(r.value.dist[edge.0], st.dist[edge.0])
            && r.value.frontier == st.frontier + multiset{(r.value.dist[edge.0].n, edge.0)})
  {
    var (neighbor, weight) := edge;
    if neighbor !in st.dist then Failure(KeyError(neighbor))
    else if Less(Fin(d + weight), st.dist[neighbor]) then
      Success(State(st.dist[neighbor := Fin(d + weight)],
                    st.frontier + multiset{(d + weight, neighbor)}))
    else Success(st)
  }

  /**
   * Relax the edges of one popped vertex, in order; the first neighbour that
   * is not a key raises `KeyError`, and the keys of the table never change.
   */
  function RelaxEdges<V(==)>(st: State<V>, d: nat, edges: seq<(V, nat)>): (r: Result<State<V>, Error<V>>)
    ensures r.Success? <==> forall e | e in edges :: e.0 in st.dist
    ensures r.Failure? ==> exists e | e in edges :: e.0 == r.error.vertex && e.0 !in st.dist
    ensures r.Success? ==> r.value.dist.Keys == st.dist.Keys
    decreases |edges|
  {
    if edges == [] then Success(st)
    else
      match RelaxEdge(st, d, edges[0])
      case Failure(err) => Failure(err)
      case Success(st') =>
        assert forall e | e in edges :: e == edges[0] || e in edges[1..];
        RelaxEdges(st', d, edges[1..])
  }

  /**
   * After relaxing all edges of a vertex popped at `d`: every edge target is
   * within `d` plus the edge weight, and no distance has grown.
   */
  lemma {:induction false} RelaxEdgesBounds<V>(st: State<V>, d: nat, edges: seq<(V, nat)>)
    requires RelaxEdges(st, d, edges).Success?
    ensures var st' := RelaxEdges(st, d, edges).value;
      && (forall e | e in edges :: AtMost(st'.dist[e.0], Fin(d + e.1)))
      && (forall x | x in st.dist :: AtMost(st'.dist[x], st.dist[x]))
    decreases |edges|
  {
    if edges != [] {
      var st1 := RelaxEdge(st, d, edges[0]).value;
      RelaxEdgesBounds(st1, d, edges[1..]);
      assert forall e | e in edges :: e == edges[0] || e in edges[1..];
    }
  }

  /**
   * After relaxing all edges of a vertex popped at `d`, every distance that
   * changed equals `d` plus the weight of an edge to that vertex, and an
   * entry for it at that distance is in the frontier.
   */
  lemma {:induction false} RelaxEdgesChanges<V>(st: State<V>, d: nat, edges: seq<(V, nat)>)
    requires RelaxEdges(st, d, edges).Success?
    ensures var st' := RelaxEdges(st, d, edges).value;
      forall x | x in st.dist && st'.dist[x] != st.dist[x] ::
        && (exists e | e in edges :: e.0 == x && st'.dist[x] == Fin(d + e.1))
        && (st'.dist[x].n, x) in st'.frontier
    decreases |edges|
  {
    if edges != [] {
      var st1 := RelaxEdge(st, d, edges[0]).value;
      var st' := RelaxEdges(st, d, edges).value;
      RelaxEdgesChanges(st1, d, edges[1..]);
      RelaxEdgesFrontier(st1, d, edges[1..]);
      forall x | x in st.dist && st'.dist[x] != st.dist[x]
        ensures exists e | e in edges :: e.0 == x && st'.dist[x] == Fin(d + e.1)
        ensures (st'.dist[x].n, x) in st'.frontier
      {
        if st'.dist[x] == st1.dist[x] {
          assert edges[0].0 == x && st1.dist[x] == Fin(d + edges[0].1);
          assert (st1.dist[x].n, x) in st1.frontier;
        } else {
          var e :| e in edges[1..] && e.0 == x && st'.dist[x] == Fin(d + e.1);
          assert e in edges;
        }
      }
    }
  }

  /**
   * Relaxing only adds frontier entries, and each added entry is at least `d`
   * and not below the final distance of its vertex.
   */
  lemma {:induction false} RelaxEdgesFrontier<V>(st: State<V>, d: nat, edges: seq<(V, nat)>)
    requires RelaxEdges(st, d, edges).Success?
    ensures var st' := RelaxEdges(st, d, edges).value;
      && st.frontier <= st'.frontier
      && forall y | y in st'.frontier ::
           y in st.frontier || (y.0 >= d && y.1 in st.dist && AtMost(st'.dist[y.1], Fin(y.0)))
    decreases |edges|
  {
    if edges != [] {
      var st1 := RelaxEdge(st, d, edges[0]).value;
      RelaxEdgesFrontier(st1, d, edges[1..]);
      RelaxEdgesBounds(st1, d, edges[1..]);
    }
  }

  /** Relaxing edges that are all already relaxed changes nothing. */
  lemma {:induction false} RelaxEdgesNoOp<V>(st: State<V>, d: nat, edges: seq<(V, nat)>)
    requires forall e | e in edges :: e.0 in st.dist && AtMost(st.dist[e.0], Fin(d + e.1))
    ensures RelaxEdges(st, d, edges) == Success(st)
    decreases |edges|
  {
    if edges != [] {
      assert RelaxEdge(st, d, edges[0]) == Success(st);
      assert forall e | e in edges[1..] :: e in edges;
      RelaxEdgesNoOp(st, d, edges[1..]);
    }
  }

  /** The distance table `find_shortest_paths` starts from. */
  function InitialDistances<V>(graph: Graph<V>, source: V): (dist: map<V, Dist>)
    requires source in graph
    ensures dist.Keys == graph.Keys
    ensures dist[source] == Fin(0)
    ensures forall v | v in dist && v != source :: dist[v] == Inf
  {
    (map v | v in graph :: Inf)[source := Fin(0)]
  }

  /**
   * The loop invariant of `find_shortest_paths`. `settled` holds the vertices
   * popped at their recorded distance and `cur` the last distance popped.
   */
  ghost predicate Invariant<V(!new)>(graph: Graph<V>, source: V, dist: map<V, Dist>,
                                     frontier: multiset<(nat, V)>, settled: set<V>, cur: nat)
  {
    && dist.Keys == graph.Keys
    && source in dist && dist[source] == Fin(0)
    // every frontier entry (d, v) has d >= dist[v], and none is below the last pop
    && (forall y | y in frontier :: y.1 in dist && AtMost(dist[y.1], Fin(y.0)) && cur <= y.0)
    && settled <= dist.Keys
    && (forall u | u in settled :: dist[u].Fin? && dist[u].n <= cur)
    // the triangle inequality over the settled vertices
    && (forall u, e | u in settled && e in graph[u] ::
          e.0 in dist && AtMost(dist[e.0], Fin(dist[u].n + e.1)))
    // a finite distance is settled or still waiting in the frontier
    && (forall v | v in dist && dist[v].Fin? :: v in settled || (dist[v].n, v) in frontier)
    // a finite distance is the weight of some walk
    && (forall v | v in dist && dist[v].Fin? :: Achievable(graph, source, v, dist[v].n))
  }

  /** The invariant holds of the initial table and the one-entry frontier. */
  lemma InvariantInit<V(!new)>(graph: Graph<V>, source: V)
    requires source in graph
    ensures Invariant(graph, source, InitialDistances(graph, source), multiset{(0, source)}, {}, 0)
  {
    assert IsWalk(graph, source, []) && End(source, []) == source && Weight<V>([]) == 0;
  }

  /** Discarding a stale entry of least distance keeps the invariant. */
  lemma InvariantStale<V(!new)>(graph: Graph<V>, source: V, dist: map<V, Dist>,
                                frontier: multiset<(nat, V)>, settled: set<V>, cur: nat,
                                entry: (nat, V))
    requires Invariant(graph, source, dist, frontier, settled, cur)
    requires entry in frontier && forall x | x in frontier :: entry.0 <= x.0
    requires Less(dist[entry.1], Fin(entry.0))
    ensures Invariant(graph, source, dist, frontier - multiset{entry}, settled, entry.0)
  {
    var rest := frontier - multiset{entry};
    forall v | v in dist && dist[v].Fin? && v !in settled
      ensures (dist[v].n, v) in rest
    {
      assert (dist[v].n, v) != entry;
    }
  }

  /**
   * The facts about one relaxation step that the invariant needs: relaxing
   * from `v`, popped at its recorded distance `d`, yields `st'`.
   */
  ghost predicate RelaxStep<V>(graph: Graph<V>, dist: map<V, Dist>, rest: multiset<(nat, V)>,
                               d: nat, v: V, st': State<V>)
  {
    && v in graph && v in dist && dist[v] == Fin(d)
    && st'.dist.Keys == dist.Keys
    && (forall e | e in graph[v] :: e.0 in dist && AtMost(st'.dist[e.0], Fin(d + e.1)))
    && (forall x | x in dist :: AtMost(st'.dist[x], dist[x]))
    && (forall x | x in dist && st'.dist[x] != dist[x] ::
          && (exists e | e in graph[v] :: e.0 == x && st'.dist[x] == Fin(d + e.1))
          && (st'.dist[x].n, x) in st'.frontier)
    && rest <= st'.frontier
    && (forall y | y in st'.frontier ::
          y in rest || (y.0 >= d && y.1 in dist && AtMost(st'.dist[y.1], Fin(y.0))))
  }

  /** The relaxation lemmas, gathered for one popped vertex. */
  lemma RelaxStepHolds<V>(graph: Graph<V>, dist: map<V, Dist>, rest: multiset<(nat, V)>,
                          d: nat, v: V, st': State<V>)
    requires v in graph && v in dist && dist[v] == Fin(d)
    requires RelaxEdges(State(dist, rest), d, graph[v]) == Success(st')
    ensures RelaxStep(graph, dist, rest, d, v, st')
  {
    RelaxEdgesBounds(State(dist, rest), d, graph[v]);
    RelaxEdgesChanges(State(dist, rest), d, graph[v]);
    RelaxEdgesFrontier(State(dist, rest), d, graph[v]);
  }

  /** No vertex at distance at most `d` changes when relaxing from a vertex popped at `d`. */
  lemma RelaxKeepsSettled<V>(graph: Graph<V>, dist: map<V, Dist>, rest: multiset<(nat, V)>,
                             d: nat, v: V, st': State<V>, settled: set<V>)
    requires RelaxStep(graph, dist, rest, d, v, st')
    requires settled <= dist.Keys
    requires forall u | u in settled :: dist[u].Fin? && dist[u].n <= d
    ensures forall u | u in settled :: st'.dist[u] == dist[u]
  {
    forall u | u in settled ensures st'.dist[u] == dist[u] {
      if st'.dist[u] != dist[u] {
        assert false;
      }
    }
  }

  /** Every distance a relaxation records is the weight of some walk. */
  lemma RelaxKeepsAchievable<V(!new)>(graph: Graph<V>, source: V, dist: map<V, Dist>,
                                      rest: multiset<(nat, V)>, d: nat, v: V, st': State<V>)
    requires RelaxStep(graph, dist, rest, d, v, st')
    requires forall x | x in dist && dist[x].Fin? :: Achievable(graph, source, x, dist[x].n)
    ensures forall x | x in st'.dist && st'.dist[x].Fin? :: Achievable(graph, source, x, st'.dist[x].n)
  {
    forall x | x in st'.dist && st'.dist[x].Fin?
      ensures Achievable(graph, source, x, st'.dist[x].n)
    {
      if st'.dist[x] != dist[x] {
        var e :| e in graph[v] && e.0 == x && st'.dist[x] == Fin(d + e.1);
        AchievableExtend(graph, source, v, d, e);
      }
    }
  }

  /** The triangle inequality over the settled vertices survives relaxing, with `v` added. */
  lemma RelaxKeepsTriangle<V>(graph: Graph<V>, dist: map<V, Dist>, rest: multiset<(nat, V)>,
                              d: nat, v: V, st': State<V>, settled: set<V>)
    requires RelaxStep(graph, dist, rest, d, v, st')
    requires settled <= dist.Keys && settled <= graph.Keys
    requires forall u | u in settled + {v} :: st'.dist[u] == dist[u]
    requires forall u | u in settled :: dist[u].Fin?
    requires forall u, e | u in settled && e in graph[u] ::
               e.0 in dist && AtMost(dist[e.0], Fin(dist[u].n + e.1))
    ensures forall u, e | u in settled + {v} && e in graph[u] ::
              e.0 in st'.dist && AtMost(st'.dist[e.0], Fin(st'.dist[u].n + e.1))
  {
    forall u, e | u in settled + {v} && e in graph[u]
      ensures e.0 in st'.dist && AtMost(st'.dist[e.0], Fin(st'.dist[u].n + e.1))
    {
      if u == v {
        assert st'.dist[v] == Fin(d);
      } else {
        assert AtMost(st'.dist[e.0], dist[e.0]);
      }
    }
  }

  /** A finite distance is still settled or pending in the frontier after relaxing from `entry`. */
  lemma RelaxKeepsPending<V>(graph: Graph<V>, dist: map<V, Dist>, frontier: multiset<(nat, V)>,
                             entry: (nat, V), st': State<V>, settled: set<V>)
    requires RelaxStep(graph, dist, frontier - multiset{entry}, entry.0, entry.1, st')
    requires forall x | x in dist && dist[x].Fin? :: x in settled || (dist[x].n, x) in frontier
    ensures forall x | x in st'.dist && st'.dist[x].Fin? ::
              x in settled + {entry.1} || (st'.dist[x].n, x) in st'.frontier
  {
    var rest := frontier - multiset{entry};
    forall x | x in st'.dist && st'.dist[x].Fin?
      ensures x in settled + {entry.1} || (st'.dist[x].n, x) in st'.frontier
    {
      if st'.dist[x] == dist[x] && x !in settled + {entry.1} {
        assert (dist[x].n, x) != entry;
        assert (dist[x].n, x) in rest;
      }
    }
  }

  /** Frontier entries stay above their vertex's distance and not below `d` after relaxing. */
  lemma RelaxKeepsFrontier<V>(graph: Graph<V>, dist: map<V, Dist>, frontier: multiset<(nat, V)>,
                              entry: (nat, V), st': State<V>)
    requires RelaxStep(graph, dist, frontier - multiset{entry}, entry.0, entry.1, st')
    requires forall y | y in frontier :: y.1 in dist && AtMost(dist[y.1], Fin(y.0))
    requires forall x | x in frontier :: entry.0 <= x.0
    ensures forall y | y in st'.frontier ::
              y.1 in st'.dist && AtMost(st'.dist[y.1], Fin(y.0)) && entry.0 <= y.0
  {
    var rest := frontier - multiset{entry};
    forall y | y in st'.frontier
      ensures y.1 in st'.dist && AtMost(st'.dist[y.1], Fin(y.0)) && entry.0 <= y.0
    {
      if y in rest {
        assert y in frontier;
        assert AtMost(st'.dist[y.1], dist[y.1]);
      }
    }
  }

  /**
   * Relaxing keeps the keys and the source's distance 0, and the settled
   * vertices, with the popped one, keep finite distances up to the pop.
   */
  lemma RelaxKeepsBasics<V(!new)>(graph: Graph<V>, source: V, dist: map<V, Dist>,
                                  frontier: multiset<(nat, V)>, settled: set<V>, cur: nat,
                                  entry: (nat, V), st': State<V>)
    requires Invariant(graph, source, dist, frontier, settled, cur)
    requires entry in frontier && forall x | x in frontier :: entry.0 <= x.0
    requires RelaxStep(graph, dist, frontier - multiset{entry}, entry.0, entry.1, st')
    requires forall u | u in settled + {entry.1} :: st'.dist[u] == dist[u]
    ensures st'.dist.Keys == graph.Keys
    ensures source in st'.dist && st'.dist[source] == Fin(0)
    ensures settled + {entry.1} <= st'.dist.Keys
    ensures forall u | u in settled + {entry.1} :: st'.dist[u].Fin? && st'.dist[u].n <= entry.0
  {
    assert AtMost(st'.dist[source], dist[source]);
  }

  /**
   * Relaxing the edges of a vertex popped at its recorded distance, an entry
   * of least distance, keeps the invariant with that vertex settled.
   */
  lemma InvariantRelax<V(!new)>(graph: Graph<V>, source: V, dist: map<V, Dist>,
                                frontier: multiset<(nat, V)>, settled: set<V>, cur: nat,
                                entry: (nat, V), st': State<V>)
    requires Invariant(graph, source, dist, frontier, settled, cur)
    requires entry in frontier && forall x | x in frontier :: entry.0 <= x.0
    requires RelaxStep(graph, dist, frontier - multiset{entry}, entry.0, entry.1, st')
    ensures Invariant(graph, source, st'.dist, st'.frontier, settled + {entry.1}, entry.0)
  {
    var (d, v) := entry;
    var rest := frontier - multiset{entry};
    var settled' := settled + {v};
    RelaxKeepsSettled(graph, dist, rest, d, v, st', settled');
    RelaxKeepsBasics(graph, source, dist, frontier, settled, cur, entry, st');
    RelaxKeepsAchievable(graph, source, dist, rest, d, v, st');
    RelaxKeepsTriangle(graph, dist, rest, d, v, st', settled);
    RelaxKeepsPending(graph, dist, frontier, entry, st', settled);
    RelaxKeepsFrontier(graph, dist, frontier, entry, st');
  }

  /** A vertex popped again after it was settled has all its edges relaxed already. */
  lemma ResettledNoOp<V(!new)>(graph: Graph<V>, source: V, dist: map<V, Dist>,
                               frontier: multiset<(nat, V)>, settled: set<V>, cur: nat,
                               v: V, d: nat, rest: multiset<(nat, V)>)
    requires Invariant(graph, source, dist, frontier, settled, cur)
    requires v in settled && dist[v] == Fin(d)
    ensures RelaxEdges(State(dist, rest), d, graph[v]) == Success(State(dist, rest))
  {
    RelaxEdgesNoOp(State(dist, rest), d, graph[v]);
  }

  /**
   * Settling a key either leaves the settled set as it was (the key was
   * settled already) or shrinks the set of unsettled keys.
   */
  lemma SettleShrinks<V>(keys: set<V>, settled: set<V>, v: V)
    requires v in keys
    ensures v in settled ==> settled + {v} == settled
    ensures v !in settled ==> |keys - (settled + {v})| < |keys - settled|
  {
    if v !in settled {
      assert keys - (settled + {v}) == (keys - settled) - {v};
    }
  }

  /**
   * When the frontier is empty, every finite distance is settled, so the
   * triangle inequality holds along every edge and the table holds shortest
   * distances; every reachable vertex is then a key.
   */
  lemma InvariantDone<V(!new)>(graph: Graph<V>, source: V, dist: map<V, Dist>,
                               settled: set<V>, cur: nat)
    requires Invariant(graph, source, dist, multiset{}, settled, cur)
    ensures Triangle(graph, dist)
    ensures ShortestDistances(graph, source, dist)
    ensures ClosedFrom(graph, source)
  {
    TriangleBoundsAllWalks(graph, source, dist);
  }

  /** A reachable vertex that is not a key shows the graph is not closed from the source. */
  lemma MissingKeyNotClosed<V(!new)>(graph: Graph<V>, source: V, n: V)
    requires Reachable(graph, source, n) && n !in graph
    ensures !ClosedFrom(graph, source)
  {
  }

  /**
   * Process an entry popped at the recorded distance of its vertex: relax
   * every edge of the vertex, raising `KeyError` at the first neighbour that
   * is not a key. The invariant is kept with the vertex settled.
   */
  method SettleVertex<V(==,!new)>(graph: Graph<V>, source: V, dist: map<V, Dist>,
                                  frontier: multiset<(nat, V)>, ghost settled: set<V>, ghost cur: nat,
                                  entry: (nat, V), rest: multiset<(nat, V)>)
    returns (r: Result<State<V>, Error<V>>)
    requires Invariant(graph, source, dist, frontier, settled, cur)
    requires entry in frontier && forall x | x in frontier :: entry.0 <= x.0
    requires rest == frontier - multiset{entry}
    requires !Less(dist[entry.1], Fin(entry.0))
    ensures r.Failure? ==> r.error.vertex !in graph && Reachable(graph, source, r.error.vertex)
    ensures r.Success? ==>
      Invariant(graph, source, r.value.dist, r.value.frontier, settled + {entry.1}, entry.0)
    ensures r.Success? && entry.1 in settled ==> r.value.frontier == rest
    ensures r == RelaxEdges(State(dist, rest), entry.0, graph[entry.1])
  {
    var (d, v) := entry;
    r := RelaxEdges(State(dist, rest), d, graph[v]);
    if r.Failure? {
      var e :| e in graph[v] && e.0 == r.error.vertex && e.0 !in dist;
      AchievableExtend(graph, source, v, d, e);
      return;
    }
    RelaxStepHolds(graph, dist, rest, d, v, r.value);
    InvariantRelax(graph, source, dist, frontier, settled, cur, entry, r.value);
    if v in settled {
      // A settled vertex popped again relaxes nothing.
      ResettledNoOp(graph, source, dist, frontier, settled, cur, v, d, rest);
    }
  }

  /**
   * One iteration of the main loop: pop an entry of least distance; discard
   * it when it is stale (its distance exceeds the recorded one), otherwise
   * relax every edge of its vertex. The invariant is kept, and the pair
   * (number of unsettled keys, frontier size) decreases lexicographically.
   * `entry` is the popped entry.
   */
  method PopAndRelax<V(==,!new)>(graph: Graph<V>, source: V, dist: map<V, Dist>,
                                 frontier: multiset<(nat, V)>, ghost settled: set<V>, ghost cur: nat)
    returns (r: Result<State<V>, Error<V>>, entry: (nat, V), ghost settled': set<V>, ghost cur': nat)
    requires Invariant(graph, source, dist, frontier, settled, cur)
    requires frontier != multiset{}
    ensures entry in frontier && forall x | x in frontier :: entry.0 <= x.0
    ensures entry.1 in dist && entry.1 in graph
    ensures Less(dist[entry.1], Fin(entry.0)) ==>
      r == Success(State(dist, frontier - multiset{entry})) && settled' == settled
    ensures !Less(dist[entry.1], Fin(entry.0)) ==>
      r == RelaxEdges(State(dist, frontier - multiset{entry}), entry.0, graph[entry.1])
    ensures r.Failure? ==> r.error.vertex !in graph && Reachable(graph, source, r.error.vertex)
    ensures r.Success? ==> Invariant(graph, source, r.value.dist, r.value.frontier, settled', cur')
    ensures r.Success? ==>
      || |graph.Keys - settled'| < |graph.Keys - settled|
      || (settled' == settled && |r.value.frontier| < |frontier|)
  {
    var rest;
    entry, rest := ExtractMin(frontier);
    var (d, v) := entry;
    if Less(dist[v], Fin(d)) {
      // A stale entry: a shorter distance to `v` was recorded after it was pushed.
      InvariantStale(graph, source, dist, frontier, settled, cur, entry);
      return Success(State(dist, rest)), entry, settled, d;
    }
    r := SettleVertex(graph, source, dist, frontier, settled, cur, entry, rest);
    SettleShrinks(graph.Keys, settled, v);
    settled', cur' := settled + {v}, d;
  }

  /**
   * `find_shortest_paths`: distances from `source` to every key of `graph`.
   *
   * Fails with `KeyError(source)` when the source is not a key, and with
   * `KeyError(n)` when a processed vertex has a neighbour `n` that is not a
   * key. It succeeds exactly when the source and every vertex reachable from
   * it are keys, and the table it then returns holds, for every key, the
   * weight of a shortest walk from the source, or `Inf` when there is none.
   */
  method FindShortestPaths<V(==,!new)>(graph: Graph<V>, source: V)
    returns (r: Result<map<V, Dist>, Error<V>>)
    ensures source !in graph ==> r == Failure(KeyError(source))
    ensures r.Success? <==> source in graph && ClosedFrom(graph, source)
    ensures r.Failure? ==> r.error.vertex !in graph && Reachable(graph, source, r.error.vertex)
    ensures r.Success? ==> r.value.Keys == graph.Keys
    ensures r.Success? ==> r.value[source] == Fin(0)
    ensures r.Success? ==> Triangle(graph, r.value)
    ensures r.Success? ==> ShortestDistances(graph, source, r.value)
  {
    if source !in graph {
      assert IsWalk(graph, source, []);
      return Failure(KeyError(source));
    }
    var dist := InitialDistances(graph, source);
    var frontier := multiset{(0, source)};
    ghost var settled: set<V> := {};
    ghost var cur: nat := 0;
    InvariantInit(graph, source);
    while frontier != multiset{}
      invariant Invariant(graph, source, dist, frontier, settled, cur)
      decreases |graph.Keys - settled|, |frontier|
    {
      var step, popped;
      step, popped, settled, cur := PopAndRelax(graph, source, dist, frontier, settled, cur);
      if step.Failure? {
        MissingKeyNotClosed(graph, source, step.error.vertex);
        return Failure(step.error);
      }
      dist, frontier := step.value.dist, step.value.frontier;
    }
    InvariantDone(graph, source, dist, settled, cur);
    return Success(dist);
  }
}
