/**
 * Weighted directed graphs in adjacency form, walks through them, and the
 * characterisation of single-source shortest distances that the Dijkstra
 * solver is proved against.
 */
module Graphs {

  /**
   * A distance: a finite natural number, or `Inf` for a vertex with no known
   * path (Python's `float('inf')`).
   */
  datatype Dist = Fin(n: nat) | Inf

  /** `a < b`, with `Inf` above every finite distance and not below itself. */
  predicate Less(a: Dist, b: Dist)
  {
    a.Fin? && (b.Inf? || a.n < b.n)
  }

  /** `a <= b` in the same order. */
  predicate AtMost(a: Dist, b: Dist)
  {
    b.Inf? || (a.Fin? && a.n <= b.n)
  }

  /** Each vertex maps to its outgoing edges, as (neighbour, weight) pairs. */
  type Graph<V> = map<V, seq<(V, nat)>>

  /** The vertex a walk from `source` ends at; a walk is the list of edges it takes. */
  function End<V>(source: V, p: seq<(V, nat)>): V
  {
    if p == [] then source else p[|p| - 1].0
  }

  /** The total weight of the edges of a walk. */
  function Weight<V>(p: seq<(V, nat)>): nat
    decreases |p|
  {
    if p == [] then 0 else Weight(p[..|p| - 1]) + p[|p| - 1].1
  }

  /** Every edge of `p` leaves a key of `g` at the vertex the previous edge reached. */
  ghost predicate IsWalk<V>(g: Graph<V>, source: V, p: seq<(V, nat)>)
    decreases |p|
  {
    p == [] ||
    (var q := p[..|p| - 1];
     IsWalk(g, source, q) && End(source, q) in g && p[|p| - 1] in g[End(source, q)])
  }

  /** Some walk from `source` ends at `v`. */
  ghost predicate Reachable<V(!new)>(g: Graph<V>, source: V, v: V)
  {
    exists p :: IsWalk(g, source, p) && End(source, p) == v
  }

  /** Some walk from `source` ends at `v` and weighs exactly `d`. */
  ghost predicate Achievable<V(!new)>(g: Graph<V>, source: V, v: V, d: nat)
  {
    exists p :: IsWalk(g, source, p) && End(source, p) == v && Weight(p) == d
  }

  /** Every vertex reachable from `source` is a key of `g`. */
  ghost predicate ClosedFrom<V(!new)>(g: Graph<V>, source: V)
  {
    forall p :: IsWalk(g, source, p) ==> End(source, p) in g
  }

  /** Every edge of `g` leads to a key of `g`. */
  predicate Closed<V>(g: Graph<V>)
  {
    forall u, e :: u in g && e in g[u] ==> e.0 in g
  }

  /**
   * For every key `u` with a finite distance and every edge `(v, w)` out of
   * `u`, `v` is a key and `dist[v] <= dist[u] + w`.
   */
  predicate Triangle<V>(g: Graph<V>, dist: map<V, Dist>)
  {
    forall u, e :: u in dist && u in g && dist[u].Fin? && e in g[u] ==>
      e.0 in dist && AtMost(dist[e.0], Fin(dist[u].n + e.1))
  }

  /**
   * `dist` holds single-source shortest distances from `source`: every finite
   * entry is the weight of some walk to its vertex, and no walk from `source`
   * is shorter than the entry of the vertex it ends at (so `Inf` entries are
   * exactly the unreachable vertices).
   */
  ghost predicate ShortestDistances<V(!new)>(g: Graph<V>, source: V, dist: map<V, Dist>)
  {
    && (forall v :: v in dist && dist[v].Fin? ==> Achievable(g, source, v, dist[v].n))
    && (forall p :: IsWalk(g, source, p) ==>
          End(source, p) in dist && AtMost(dist[End(source, p)], Fin(Weight(p))))
  }

  /** Extending a walk by an edge out of its end vertex gives a walk. */
  lemma WalkExtend<V>(g: Graph<V>, source: V, p: seq<(V, nat)>, e: (V, nat))
    requires IsWalk(g, source, p)
    requires End(source, p) in g && e in g[End(source, p)]
    ensures IsWalk(g, source, p + [e])
    ensures End(source, p + [e]) == e.0
    ensures Weight(p + [e]) == Weight(p) + e.1
  {
    assert (p + [e])[..|p|] == p;
  }

  /** An achievable distance at `u` plus an edge out of `u` is achievable at the edge's end. */
  lemma AchievableExtend<V(!new)>(g: Graph<V>, source: V, u: V, d: nat, e: (V, nat))
    requires Achievable(g, source, u, d)
    requires u in g && e in g[u]
    ensures Achievable(g, source, e.0, d + e.1)
    ensures Reachable(g, source, e.0)
  {
    var p :| IsWalk(g, source, p) && End(source, p) == u && Weight(p) == d;
    WalkExtend(g, source, p, e);
  }

  /**
   * Lower bound: when the source is at distance 0 and the triangle inequality
   * holds along every edge, no walk from the source is shorter than the
   * distance recorded for the vertex it ends at.
   */
  lemma {:induction false} TriangleBoundsWalks<V>(g: Graph<V>, source: V, dist: map<V, Dist>,
                                                  p: seq<(V, nat)>)
    requires dist.Keys == g.Keys
    requires source in dist && dist[source] == Fin(0)
    requires Triangle(g, dist)
    requires IsWalk(g, source, p)
    ensures End(source, p) in dist && AtMost(dist[End(source, p)], Fin(Weight(p)))
    decreases |p|
  {
    if p != [] {
      var q := p[..|p| - 1];
      TriangleBoundsWalks(g, source, dist, q);
      var u := End(source, q);
      assert p[|p| - 1] in g[u];
    }
  }

  /** `TriangleBoundsWalks` for all walks at once. */
  lemma TriangleBoundsAllWalks<V(!new)>(g: Graph<V>, source: V, dist: map<V, Dist>)
    requires dist.Keys == g.Keys
    requires source in dist && dist[source] == Fin(0)
    requires Triangle(g, dist)
    ensures forall p :: IsWalk(g, source, p) ==>
              End(source, p) in dist && AtMost(dist[End(source, p)], Fin(Weight(p)))
  {
    forall p | IsWalk(g, source, p)
      ensures End(source, p) in dist && AtMost(dist[End(source, p)], Fin(Weight(p)))
    {
      TriangleBoundsWalks(g, source, dist, p);
    }
  }

  /** In a graph whose edges all lead to keys, every walk from a key ends at a key. */
  lemma {:induction false} ClosedWalkEnds<V>(g: Graph<V>, source: V, p: seq<(V, nat)>)
    requires Closed(g) && source in g
    requires IsWalk(g, source, p)
    ensures End(source, p) in g
    decreases |p|
  {
    if p != [] {
      var q := p[..|p| - 1];
      ClosedWalkEnds(g, source, q);
      assert p[|p| - 1] in g[End(source, q)];
    }
  }

  /** A graph whose edges all lead to keys is closed from each of its keys. */
  lemma ClosedIsClosedFrom<V(!new)>(g: Graph<V>, source: V)
    requires Closed(g) && source in g
    ensures ClosedFrom(g, source)
  {
    forall p | IsWalk(g, source, p) ensures End(source, p) in g {
      ClosedWalkEnds(g, source, p);
    }
  }

  /**
   * Shortest distances are unique: two tables over the same keys that both
   * satisfy `ShortestDistances` are equal.
   */
  lemma ShortestDistancesUnique<V(!new)>(g: Graph<V>, source: V, d1: map<V, Dist>, d2: map<V, Dist>)
    requires d1.Keys == d2.Keys
    requires ShortestDistances(g, source, d1) && ShortestDistances(g, source, d2)
    ensures d1 == d2
  {
    forall v | v in d1 ensures d1[v] == d2[v] {
      if d1[v].Fin? {
        var p :| IsWalk(g, source, p) && End(source, p) == v && Weight(p) == d1[v].n;
        assert AtMost(d2[v], Fin(d1[v].n));
        var q :| IsWalk(g, source, q) && End(source, q) == v && Weight(q) == d2[v].n;
        assert AtMost(d1[v], Fin(d2[v].n));
      } else if d2[v].Fin? {
        assert false;
      }
    }
  }
}
