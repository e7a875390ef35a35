/**
 * Binary trees of coloured nodes, and the tree built from a heap array:
 * the node for index `i` has the children built from indices `2i + 1` and
 * `2i + 2`.
 */
module Trees {
  /**
   * `Leaf` is the absent child. A node's `id` stands for the identity that the
   * `uuid4` string of each `Node` object gives; trees built from an array use the
   * array index.
   */
  datatype Tree<T> = Leaf | Node(id: nat, val: T, color: string, left: Tree<T>, right: Tree<T>)

  /** The default colour of a fresh node in the traversal visualisation (light grey). */
  const TraversalColor: string := "#D3D3D3"

  /** The default colour of a fresh node in the heap visualisation. */
  const HeapColor: string := "skyblue"

  /** Number of nodes. */
  function Size<T>(t: Tree<T>): nat
  {
    if t.Leaf? then 0 else 1 + Size(t.left) + Size(t.right)
  }

  /** The nodes of `t` in pre-order: a node, then its left subtree, then its right subtree. */
  function Preorder<T>(t: Tree<T>): (r: seq<Tree<T>>)
    ensures |r| == Size(t)
    ensures forall k :: 0 <= k < |r| ==> r[k].Node?
  {
    if t.Leaf? then [] else [t] + Preorder(t.left) + Preorder(t.right)
  }

  /** The tree for index `i` of the heap array `a`, its nodes coloured `color`. */
  function BuildHeapTree<T>(a: seq<T>, i: nat, color: string): (t: Tree<T>)
    ensures t.Leaf? <==> i >= |a|
    ensures t.Node? ==> t.id == i && t.val == a[i]
    decreases |a| - i
  {
    if i < |a| then
      Node(i, a[i], color, BuildHeapTree(a, 2 * i + 1, color), BuildHeapTree(a, 2 * i + 2, color))
    else
      Leaf
  }

  /**
   * A node of the tree built from `a` sits at its own index: it holds that
   * element and the fresh colour, and its children are present exactly when
   * the indices `2 * id + 1` and `2 * id + 2` lie inside the array.
   */
  ghost predicate HeapNode<T>(a: seq<T>, color: string, x: Tree<T>)
  {
    x.Node? ==>
      && x.id < |a| && x.val == a[x.id] && x.color == color
      && (x.left.Node? <==> 2 * x.id + 1 < |a|) && (x.left.Node? ==> x.left.id == 2 * x.id + 1)
      && (x.right.Node? <==> 2 * x.id + 2 < |a|) && (x.right.Node? ==> x.right.id == 2 * x.id + 2)
  }

  /** Every node listed in `s` is a `HeapNode` with index at least `lo`. */
  ghost predicate HeapNodesFrom<T>(a: seq<T>, color: string, s: seq<Tree<T>>, lo: nat)
  {
    forall k :: 0 <= k < |s| ==> s[k].Node? && HeapNode(a, color, s[k]) && lo <= s[k].id
  }

  /** Position `k` of a node's pre-order: the node, then its left, then its right subtree. */
  lemma PreorderAt<T>(t: Tree<T>, k: nat)
    requires t.Node? && k < |Preorder(t)|
    ensures Preorder(t)[k]
      == if k == 0 then t
         else if k <= |Preorder(t.left)| then Preorder(t.left)[k - 1]
         else Preorder(t.right)[k - 1 - |Preorder(t.left)|]
  {
    var l, r := Preorder(t.left), Preorder(t.right);
    var p := Preorder(t);
    assert p == [t] + l + r;
    if k > 0 {
      if k <= |l| {
        assert p[k] == l[k - 1];
      } else {
        assert p[k] == r[k - 1 - |l|];
      }
    }
  }

  /** Every node of a heap-built tree is a `HeapNode` with an index at least the root's. */
  lemma {:induction false} HeapTreeNodes<T>(a: seq<T>, i: nat, color: string)
    ensures HeapNodesFrom(a, color, Preorder(BuildHeapTree(a, i, color)), i)
    decreases |a| - i
  {
    if i < |a| {
      var t := BuildHeapTree(a, i, color);
      assert t == Node(i, a[i], color, BuildHeapTree(a, 2 * i + 1, color), BuildHeapTree(a, 2 * i + 2, color));
      HeapTreeNodes(a, 2 * i + 1, color);
      HeapTreeNodes(a, 2 * i + 2, color);
      var p := Preorder(t);
      assert HeapNode(a, color, t);
      forall k | 0 <= k < |p| ensures p[k].Node? && HeapNode(a, color, p[k]) && i <= p[k].id {
        PreorderAt(t, k);
      }
    }
  }

  /**
   * In the heap visualisation no colour is ever assigned after construction,
   * so every node of the tree built from the array keeps the fresh colour
   * "skyblue" and sits at its own index.
   */
  lemma HeapTreeColors<T>(a: seq<T>)
    ensures var p := Preorder(BuildHeapTree(a, 0, HeapColor));
      forall k :: 0 <= k < |p| ==> p[k].color == "skyblue" && p[k].id < |a| && p[k].val == a[p[k].id]
  {
    HeapTreeNodes(a, 0, HeapColor);
  }
}
