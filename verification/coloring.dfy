/**
 * Colouring a tree along a traversal: the `k`-th visited node gets the
 * `k`-th colour of a gradient as long as the traversal. Drawing is not part
 * of this model.
 */
module Coloring {
  import opened Wrappers
  import opened Trees
  import opened Traversals
  import Gradients

  /** Which traversal drives the colouring. */
  datatype Traversal = BreadthFirst | DepthFirst

  /** The nodes a traversal visits, in order. */
  function Visit<T>(root: Tree<T>, kind: Traversal): seq<Tree<T>>
  {
    match kind
    case DepthFirst => Preorder(root)
    case BreadthFirst => if root.Leaf? then [] else Bfs([root])
  }

  /** No two nodes of `s` share an id, as no two node objects share an identity. */
  predicate UniqueIds<T>(s: seq<Tree<T>>)
  {
    forall i, j :: 0 <= i < j < |s| && s[i].Node? && s[j].Node? ==> s[i].id != s[j].id
  }

  /** `t` with every node whose id is a key of `paint` given that colour. */
  function Recolor<T>(t: Tree<T>, paint: map<nat, string>): (r: Tree<T>)
    ensures Size(r) == Size(t)
    ensures t.Node? ==> r.Node? && r.id == t.id && r.val == t.val
    ensures t.Node? && t.id in paint ==> r.color == paint[t.id]
    ensures t.Node? && t.id !in paint ==> r.color == t.color
  {
    if t.Leaf? then Leaf
    else
      var c := if t.id in paint then paint[t.id] else t.color;
      Node(t.id, t.val, c, Recolor(t.left, paint), Recolor(t.right, paint))
  }

  /** `t` with every colour blanked: its shape, ids and values. */
  function Erase<T>(t: Tree<T>): Tree<T>
  {
    if t.Leaf? then Leaf else Node(t.id, t.val, "", Erase(t.left), Erase(t.right))
  }

  /** Recolouring changes colours only. */
  lemma {:induction false} RecolorKeepsShape<T>(t: Tree<T>, paint: map<nat, string>)
    ensures Erase(Recolor(t, paint)) == Erase(t)
  {
    if t.Node? {
      RecolorKeepsShape(t.left, paint);
      RecolorKeepsShape(t.right, paint);
    }
  }

  /** The pre-order of a recoloured tree is the recoloured pre-order. */
  lemma {:induction false} RecolorPreorder<T>(t: Tree<T>, paint: map<nat, string>)
    ensures |Preorder(Recolor(t, paint))| == |Preorder(t)|
    ensures forall p :: 0 <= p < |Preorder(t)| ==>
      Preorder(Recolor(t, paint))[p] == Recolor(Preorder(t)[p], paint)
  {
    if t.Node? {
      RecolorPreorder(t.left, paint);
      RecolorPreorder(t.right, paint);
      var r := Recolor(t, paint);
      assert r.left == Recolor(t.left, paint) && r.right == Recolor(t.right, paint);
      forall p | 0 <= p < |Preorder(t)| ensures Preorder(r)[p] == Recolor(Preorder(t)[p], paint) {
        PreorderAt(t, p);
        PreorderAt(r, p);
      }
    }
  }

  /** Every node a traversal visits is a node. */
  lemma VisitNodes<T>(root: Tree<T>, kind: Traversal)
    ensures AllNodes(Visit(root, kind))
    ensures multiset(Visit(root, kind)) == multiset(Preorder(root))
  {
    if kind.BreadthFirst? && root.Node? {
      BfsVisitsTree(root);
      var v := Visit(root, kind);
      forall k | 0 <= k < |v| ensures v[k].Node? {
        assert v[k] in multiset(v);
        assert v[k] in Preorder(root);
      }
    }
  }

  /**
   * The colour assignment loop: pairs the visited nodes with the gradient's
   * colours, as far as the shorter list goes, recording each colour under the
   * node's id.
   */
  method PaintMap<T>(visited: seq<Tree<T>>, gradient: seq<string>) returns (paint: map<nat, string>)
    requires AllNodes(visited) && |visited| <= |gradient|
    ensures forall k :: 0 <= k < |visited| ==> visited[k].id in paint
    ensures UniqueIds(visited) ==> forall k :: 0 <= k < |visited| ==> paint[visited[k].id] == gradient[k]
  {
    paint := map[];
    var k := 0;
    while k < |visited|
      invariant 0 <= k <= |visited|
      invariant forall j :: 0 <= j < k ==> visited[j].id in paint
      invariant UniqueIds(visited) ==> forall j :: 0 <= j < k ==> paint[visited[j].id] == gradient[j]
    {
      paint := paint[visited[k].id := gradient[k]];
      k := k + 1;
    }
  }

  /** Every node of `colored` has the id of some visited node. */
  ghost predicate Covered<T>(colored: Tree<T>, visited: seq<Tree<T>>)
  {
    var P := Preorder(colored);
    forall p :: 0 <= p < |P| ==> exists k :: 0 <= k < |visited| && visited[k].Node? && visited[k].id == P[p].id
  }

  /** The node visited `k`-th carries colour `k` of a gradient as long as the visit. */
  ghost predicate ColoredAlong<T>(colored: Tree<T>, visited: seq<Tree<T>>)
  {
    var P := Preorder(colored);
    forall p, k :: 0 <= p < |P| && 0 <= k < |visited| && visited[k].Node? && visited[k].id == P[p].id
      ==> Gradients.IsGradientColor(P[p].color, k, |visited|)
  }

  /** Recolouring by the paint map of a visit colours every node as the visit says. */
  lemma RecolorMeaning<T>(root: Tree<T>, visited: seq<Tree<T>>, gradient: seq<string>, paint: map<nat, string>)
    requires AllNodes(visited) && multiset(visited) == multiset(Preorder(root))
    requires |gradient| == |visited|
    requires forall k :: 0 <= k < |gradient| ==> Gradients.IsGradientColor(gradient[k], k, |visited|)
    requires forall k :: 0 <= k < |visited| ==> visited[k].id in paint
    requires UniqueIds(visited) ==> forall k :: 0 <= k < |visited| ==> paint[visited[k].id] == gradient[k]
    ensures Covered(Recolor(root, paint), visited)
    ensures UniqueIds(visited) ==> ColoredAlong(Recolor(root, paint), visited)
  {
    RecolorPreorder(root, paint);
    var P, P' := Preorder(root), Preorder(Recolor(root, paint));
    forall p | 0 <= p < |P'|
      ensures exists k :: 0 <= k < |visited| && visited[k].Node? && visited[k].id == P'[p].id
    {
      assert P[p] in multiset(visited);
      var k :| 0 <= k < |visited| && visited[k] == P[p];
      assert P'[p] == Recolor(P[p], paint);
    }
    if UniqueIds(visited) {
      forall p, k | 0 <= p < |P'| && 0 <= k < |visited| && visited[k].Node? && visited[k].id == P'[p].id
        ensures Gradients.IsGradientColor(P'[p].color, k, |visited|)
      {
        assert P'[p] == Recolor(P[p], paint);
      }
    }
  }

  /**
   * Traverses the tree, builds a gradient as long as the traversal and gives
   * the `k`-th visited node the `k`-th colour. A tree of one node asks for a
   * one-colour gradient, which divides by zero.
   */
  method ApplyTraversalAndColor<T>(root: Tree<T>, kind: Traversal) returns (r: Result<Tree<T>, Gradients.Error>)
    ensures r.Failure? <==> Size(root) == 1
    ensures r.Success? ==> Erase(r.value) == Erase(root)
    ensures r.Success? ==> Covered(r.value, Visit(root, kind))
    ensures r.Success? && UniqueIds(Visit(root, kind)) ==> ColoredAlong(r.value, Visit(root, kind))
  {
    var visited: seq<Tree<T>>;
    if kind.BreadthFirst? {
      visited := BfsTraversal(root);
    } else {
      visited := DfsTraversal(root);
    }
    VisitNodes(root, kind);
    assert visited == Visit(root, kind);
    MultisetSize(visited, Preorder(root));
    var gradient := Gradients.GenerateGradient(|visited|);
    if gradient.Failure? {
      return Failure(gradient.error);
    }
    var paint := PaintMap(visited, gradient.value);
    RecolorKeepsShape(root, paint);
    RecolorMeaning(root, visited, gradient.value, paint);
    r := Success(Recolor(root, paint));
  }

  /** A node with an id no other node of `s` has occurs in `s` once. */
  lemma OccursOnce<T>(s: seq<Tree<T>>, p: nat)
    requires p < |s| && s[p].Node? && UniqueIds(s)
    ensures multiset(s)[s[p]] == 1
  {
    var x := s[p];
    assert s == s[..p] + [x] + s[p + 1..];
    assert x !in s[..p] by {
      forall k | 0 <= k < p ensures s[..p][k] != x {
        assert s[k].Node? ==> s[k].id != x.id;
      }
    }
    var after := s[p + 1..];
    assert x !in after by {
      forall k | 0 <= k < |after| ensures after[k] != x {
        assert after[k] == s[p + 1 + k];
      }
    }
  }

  /** A value at two positions of `u` occurs in `u` at least twice. */
  lemma OccursTwice<T>(u: seq<Tree<T>>, i: nat, j: nat)
    requires i < j < |u| && u[i] == u[j]
    ensures multiset(u)[u[i]] >= 2
  {
    assert u == u[..j] + u[j..];
    assert u[..j][i] == u[i];
    assert u[j..][0] == u[i];
  }

  /** A rearrangement of nodes with distinct ids has distinct ids. */
  lemma UniqueIdsPermutation<T>(s: seq<Tree<T>>, u: seq<Tree<T>>)
    requires multiset(s) == multiset(u) && UniqueIds(s)
    ensures UniqueIds(u)
  {
    forall i, j | 0 <= i < j < |u| && u[i].Node? && u[j].Node? ensures u[i].id != u[j].id {
      if u[i].id == u[j].id {
        assert u[i] in multiset(s) && u[j] in multiset(s);
        var p :| 0 <= p < |s| && s[p] == u[i];
        var q :| 0 <= q < |s| && s[q] == u[j];
        assert p == q;
        OccursOnce(s, p);
        OccursTwice(u, i, j);
        assert false;
      }
    }
  }

  /**
   * Both traversals of a tree built from a heap array visit nodes with
   * distinct ids: the nodes stand for distinct objects.
   */
  lemma HeapVisitUnique<T>(a: seq<T>, color: string, kind: Traversal)
    ensures UniqueIds(Visit(BuildHeapTree(a, 0, color), kind))
  {
    var t := BuildHeapTree(a, 0, color);
    if a != [] {
      BfsOfHeapTree(a, color);
      var v := Bfs([t]);
      assert UniqueIds(v);
      if kind.DepthFirst? {
        BfsVisitsTree(t);
        UniqueIdsPermutation(v, Preorder(t));
      }
    }
  }

  /**
   * Colouring the tree built from a heap array: it fails for one element,
   * and otherwise colours the node visited `k`-th with colour `k` of `|a|`;
   * breadth-first, that is the node for array index `k`.
   */
  method ColorHeapTree<T>(a: seq<T>, kind: Traversal) returns (r: Result<Tree<T>, Gradients.Error>)
    ensures r.Failure? <==> |a| == 1
    ensures r.Success? ==> Erase(r.value) == Erase(BuildHeapTree(a, 0, TraversalColor))
    ensures r.Success? ==> Covered(r.value, Visit(BuildHeapTree(a, 0, TraversalColor), kind))
    ensures r.Success? ==> ColoredAlong(r.value, Visit(BuildHeapTree(a, 0, TraversalColor), kind))
    ensures r.Success? && kind.BreadthFirst? ==>
      var P := Preorder(r.value);
      forall p :: 0 <= p < |P| ==> Gradients.IsGradientColor(P[p].color, P[p].id, |a|)
  {
    var root := BuildHeapTree(a, 0, TraversalColor);
    HeapTreeSize(a, TraversalColor);
    HeapVisitUnique(a, TraversalColor, kind);
    r := ApplyTraversalAndColor(root, kind);
    if r.Success? && kind.BreadthFirst? && a != [] {
      BfsOfHeapTree(a, TraversalColor);
      HeapColorsByIndex(a, r.value);
    }
  }

  /**
   * Breadth-first colouring of a heap-built tree gives every node the
   * colour of its own array index.
   */
  lemma HeapColorsByIndex<T>(a: seq<T>, colored: Tree<T>)
    requires a != []
    requires var v := Bfs([BuildHeapTree(a, 0, TraversalColor)]);
      && |v| == |a| && (forall j :: 0 <= j < |a| ==> v[j].Node? && v[j].id == j)
      && Covered(colored, v) && ColoredAlong(colored, v)
    ensures var P := Preorder(colored);
      forall p :: 0 <= p < |P| ==> Gradients.IsGradientColor(P[p].color, P[p].id, |a|)
  {
    var v := Bfs([BuildHeapTree(a, 0, TraversalColor)]);
    var P := Preorder(colored);
    forall p | 0 <= p < |P| ensures Gradients.IsGradientColor(P[p].color, P[p].id, |a|) {
      var k :| 0 <= k < |v| && v[k].Node? && v[k].id == P[p].id;
      assert v[k].id == k;
    }
  }
}
