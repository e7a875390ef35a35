/**
 * Breadth-first traversal with a queue and depth-first traversal with a
 * stack, over the trees of `Trees`.
 */
module Traversals {
  import opened Trees

  /** The traversals' queues and stacks only ever hold nodes, never absent children. */
  predicate AllNodes<T>(s: seq<Tree<T>>)
  {
    forall k :: 0 <= k < |s| ==> s[k].Node?
  }

  /** The pre-orders of the trees of `s`, one after the other. */
  function PreorderAll<T>(s: seq<Tree<T>>): seq<Tree<T>>
  {
    if s == [] then [] else Preorder(s[0]) + PreorderAll(s[1..])
  }

  lemma {:induction false} PreorderAllConcat<T>(a: seq<Tree<T>>, b: seq<Tree<T>>)
    ensures PreorderAll(a + b) == PreorderAll(a) + PreorderAll(b)
  {
    if a == [] {
      assert a + b == b;
    } else {
      assert (a + b)[1..] == a[1..] + b;
      PreorderAllConcat(a[1..], b);
    }
  }

  /** The children of a node that are present, left first. */
  function Children<T>(t: Tree<T>): seq<Tree<T>>
    requires t.Node?
  {
    (if t.left.Node? then [t.left] else []) + (if t.right.Node? then [t.right] else [])
  }

  /** A present child's queue entry lists its pre-order; a missing one lists nothing. */
  lemma PreorderChild<T>(c: Tree<T>)
    ensures PreorderAll(if c.Node? then [c] else []) == Preorder(c)
  {
    if c.Node? {
      assert PreorderAll([c]) == Preorder(c) + PreorderAll([]);
    }
  }

  /** The pre-orders of a node's children, left first. */
  lemma PreorderOfChildren<T>(t: Tree<T>)
    requires t.Node?
    ensures PreorderAll(Children(t)) == Preorder(t.left) + Preorder(t.right)
  {
    var l: seq<Tree<T>> := if t.left.Node? then [t.left] else [];
    var r: seq<Tree<T>> := if t.right.Node? then [t.right] else [];
    assert Children(t) == l + r;
    PreorderAllConcat(l, r);
    PreorderChild(t.left);
    PreorderChild(t.right);
  }

  /** A node's pre-order is the node followed by the pre-orders of its children. */
  lemma PreorderChildren<T>(t: Tree<T>)
    requires t.Node?
    ensures AllNodes(Children(t))
    ensures Preorder(t) == [t] + PreorderAll(Children(t))
  {
    PreorderOfChildren(t);
    assert Preorder(t) == [t] + (Preorder(t.left) + Preorder(t.right));
  }

  /** The queue after visiting its head: the rest, then the head's children. */
  function NextQueue<T>(queue: seq<Tree<T>>): seq<Tree<T>>
    requires AllNodes(queue) && queue != []
  {
    queue[1..] + Children(queue[0])
  }

  /** Visiting the head of the queue leaves one node fewer to visit. */
  lemma QueueShrinks<T>(queue: seq<Tree<T>>)
    requires AllNodes(queue) && queue != []
    ensures AllNodes(NextQueue(queue))
    ensures |PreorderAll(queue)| == 1 + |PreorderAll(NextQueue(queue))|
  {
    QueueStep(queue);
    assert |multiset(PreorderAll(queue))| == |PreorderAll(queue)|;
    assert |multiset(PreorderAll(NextQueue(queue)))| == |PreorderAll(NextQueue(queue))|;
  }

  /** Visiting the head of the queue removes exactly the head's node from what is left to visit. */
  lemma QueueStep<T>(queue: seq<Tree<T>>)
    requires AllNodes(queue) && queue != []
    ensures AllNodes(NextQueue(queue))
    ensures multiset(PreorderAll(queue)) == multiset{queue[0]} + multiset(PreorderAll(NextQueue(queue)))
  {
    PreorderChildren(queue[0]);
    PreorderAllConcat(queue[1..], Children(queue[0]));
    assert PreorderAll(queue) == Preorder(queue[0]) + PreorderAll(queue[1..]);
  }

  /** The order in which the queue-based traversal visits the nodes of `queue` and below. */
  function Bfs<T>(queue: seq<Tree<T>>): seq<Tree<T>>
    requires AllNodes(queue)
    decreases |PreorderAll(queue)|
  {
    if queue == [] then []
    else
      QueueShrinks(queue);
      [queue[0]] + Bfs(NextQueue(queue))
  }

  /** The traversal visits exactly the nodes below the queue, each as often as it occurs there. */
  lemma {:induction false} BfsPermutation<T>(queue: seq<Tree<T>>)
    requires AllNodes(queue)
    ensures multiset(Bfs(queue)) == multiset(PreorderAll(queue))
    decreases |PreorderAll(queue)|
  {
    if queue != [] {
      QueueShrinks(queue);
      QueueStep(queue);
      BfsPermutation(NextQueue(queue));
    }
  }

  /** Appends the left and then the right child of `node` to the queue, when present. */
  method EnqueueChildren<T>(queue: seq<Tree<T>>, node: Tree<T>) returns (q: seq<Tree<T>>)
    requires node.Node?
    ensures q == queue + Children(node)
  {
    q := queue;
    if node.left.Node? {
      q := q + [node.left];
    }
    if node.right.Node? {
      q := q + [node.right];
    }
  }

  /** Starting from the root, the traversal visits exactly the nodes of the tree, each once. */
  lemma BfsVisitsTree<T>(root: Tree<T>)
    requires root.Node?
    ensures multiset(Bfs([root])) == multiset(Preorder(root))
  {
    BfsPermutation([root]);
    assert PreorderAll([root]) == Preorder(root) + PreorderAll([]);
  }

  /**
   * Breadth-first traversal: pop the front of the queue, visit it, enqueue
   * its left and then its right child when present.
   */
  method BfsTraversal<T>(root: Tree<T>) returns (visited: seq<Tree<T>>)
    ensures root.Leaf? ==> visited == []
    ensures root.Node? ==> visited == Bfs([root])
    ensures multiset(visited) == multiset(Preorder(root))
  {
    if root.Leaf? {
      return [];
    }
    visited := [];
    var queue := [root];
    while queue != []
      invariant AllNodes(queue)
      invariant visited + Bfs(queue) == Bfs([root])
      decreases |PreorderAll(queue)|
    {
      QueueShrinks(queue);
      var node := queue[0];
      ghost var next := NextQueue(queue);
      assert Bfs(queue) == [node] + Bfs(next);
      queue := queue[1..];
      visited := visited + [node];
      queue := EnqueueChildren(queue, node);
    }
    assert visited == Bfs([root]);
    BfsVisitsTree(root);
  }

  /** The pre-orders of the trees of a stack, from its top (the end) down. */
  function StackOrder<T>(stack: seq<Tree<T>>): seq<Tree<T>>
  {
    if stack == [] then [] else Preorder(stack[|stack| - 1]) + StackOrder(stack[..|stack| - 1])
  }

  /** Pushing a tree puts its pre-order in front of the stack's. */
  lemma StackPush<T>(stack: seq<Tree<T>>, t: Tree<T>)
    ensures StackOrder(stack + [t]) == Preorder(t) + StackOrder(stack)
  {
    assert (stack + [t])[..|stack|] == stack;
  }

  /** The present children of a node in the order they are pushed: right, then left. */
  function Pushed<T>(node: Tree<T>): seq<Tree<T>>
    requires node.Node?
  {
    (if node.right.Node? then [node.right] else []) + (if node.left.Node? then [node.left] else [])
  }

  /**
   * Popping a node from the top of the stack and pushing its children puts
   * the node first and leaves the rest of the order as it was.
   */
  lemma StackStep<T>(below: seq<Tree<T>>, node: Tree<T>)
    requires node.Node?
    ensures StackOrder(below + [node]) == [node] + StackOrder(below + Pushed(node))
  {
    var r: seq<Tree<T>> := if node.right.Node? then [node.right] else [];
    var l: seq<Tree<T>> := if node.left.Node? then [node.left] else [];
    var A, B, C := Preorder(node.left), Preorder(node.right), StackOrder(below);
    StackPush(below, node);
    assert StackOrder(below + r) == B + C by {
      if node.right.Node? { StackPush(below, node.right); } else { assert below + r == below; }
    }
    assert StackOrder(below + r + l) == A + (B + C) by {
      if node.left.Node? { StackPush(below + r, node.left); } else { assert below + r + l == below + r; }
    }
    assert below + Pushed(node) == below + r + l;
    Regroup([node], A, B, C);
  }

  lemma Regroup<T>(w: seq<T>, x: seq<T>, y: seq<T>, z: seq<T>)
    ensures w + x + y + z == w + (x + (y + z))
  {
  }

  /** Pushes the right and then the left child of `node`, when present. */
  method PushChildren<T>(stack: seq<Tree<T>>, node: Tree<T>) returns (s: seq<Tree<T>>)
    requires node.Node?
    ensures s == stack + Pushed(node)
  {
    s := stack;
    if node.right.Node? {
      s := s + [node.right];
    }
    if node.left.Node? {
      s := s + [node.left];
    }
  }

  /**
   * Depth-first traversal: pop the top of the stack, visit it, push its
   * right and then its left child when present.
   */
  method DfsTraversal<T>(root: Tree<T>) returns (visited: seq<Tree<T>>)
    ensures visited == Preorder(root)
  {
    if root.Leaf? {
      return [];
    }
    visited := [];
    var stack := [root];
    StackPush([], root);
    while stack != []
      invariant AllNodes(stack)
      invariant visited + StackOrder(stack) == Preorder(root)
      decreases |StackOrder(stack)|
    {
      visited, stack := DfsStep(visited, stack);
    }
  }

  /** One round of the depth-first loop: pop the top, visit it, push its children. */
  method DfsStep<T>(visited: seq<Tree<T>>, stack: seq<Tree<T>>)
    returns (visited': seq<Tree<T>>, stack': seq<Tree<T>>)
    requires AllNodes(stack) && stack != []
    ensures AllNodes(stack')
    ensures visited' + StackOrder(stack') == visited + StackOrder(stack)
    ensures |StackOrder(stack')| < |StackOrder(stack)|
  {
    var node := stack[|stack| - 1];
    var below := stack[..|stack| - 1];
    assert stack == below + [node];
    StackStep(below, node);
    Regroup(visited, [node], StackOrder(below + Pushed(node)), []);
    visited' := visited + [node];
    stack' := PushChildren(below, node);
  }

  /**
   * The queue of the traversal of a heap-built tree once indices `0 .. k - 1`
   * are visited: the trees for indices `k` up to `min(2k + 1, |a|) - 1`.
   */
  function HeapQueue<T>(a: seq<T>, k: nat, color: string): (q: seq<Tree<T>>)
    requires k <= |a|
    ensures AllNodes(q)
  {
    var m := if 2 * k + 1 < |a| then 2 * k + 1 else |a|;
    var q := seq(m - k, j requires 0 <= j < m - k => BuildHeapTree(a, k + j, color));
    assert forall j :: 0 <= j < |q| ==> q[j] == BuildHeapTree(a, k + j, color) && k + j < |a|;
    q
  }

  /** Visiting the head of a heap queue leaves the heap queue of the next index. */
  lemma HeapQueueStep<T>(a: seq<T>, k: nat, color: string)
    requires k < |a|
    ensures HeapQueue(a, k, color) != []
    ensures HeapQueue(a, k, color)[0] == BuildHeapTree(a, k, color)
    ensures NextQueue(HeapQueue(a, k, color)) == HeapQueue(a, k + 1, color)
  {
    var q := HeapQueue(a, k, color);
    var t := BuildHeapTree(a, k, color);
    assert q[0] == t;
    assert t.left == BuildHeapTree(a, 2 * k + 1, color);
    assert t.right == BuildHeapTree(a, 2 * k + 2, color);
    var next := q[1..] + Children(t);
    var q' := HeapQueue(a, k + 1, color);
    assert |next| == |q'|;
    forall j | 0 <= j < |q'| ensures next[j] == q'[j] {
      if j < |q| - 1 {
        assert next[j] == q[j + 1];
      }
    }
  }

  /**
   * From the heap queue of index `k` on, the traversal visits the trees for
   * indices `k, k + 1, ..., |a| - 1` in that order.
   */
  lemma {:induction false} BfsHeapQueue<T>(a: seq<T>, k: nat, color: string)
    requires k <= |a|
    ensures |Bfs(HeapQueue(a, k, color))| == |a| - k
    ensures forall j :: 0 <= j < |a| - k ==> Bfs(HeapQueue(a, k, color))[j] == BuildHeapTree(a, k + j, color)
    decreases |a| - k
  {
    if k < |a| {
      HeapQueueStep(a, k, color);
      BfsHeapQueue(a, k + 1, color);
      var q := HeapQueue(a, k, color);
      assert Bfs(q) == [q[0]] + Bfs(HeapQueue(a, k + 1, color));
    } else {
      assert HeapQueue(a, k, color) == [];
    }
  }

  /**
   * Breadth-first traversal of the tree built from a heap array visits the
   * array's elements in index order, each node at its own index.
   */
  lemma BfsOfHeapTree<T>(a: seq<T>, color: string)
    requires a != []
    ensures var v := Bfs([BuildHeapTree(a, 0, color)]);
      && |v| == |a|
      && forall j :: 0 <= j < |a| ==> v[j].Node? && v[j].id == j && v[j].val == a[j]
  {
    assert HeapQueue(a, 0, color) == [BuildHeapTree(a, 0, color)];
    BfsHeapQueue(a, 0, color);
  }

  /**
   * The tree built from a heap array has exactly one node per array index:
   * as many nodes as elements, and the node for every index among them.
   */
  lemma HeapTreeSize<T>(a: seq<T>, color: string)
    ensures Size(BuildHeapTree(a, 0, color)) == |a|
    ensures forall j :: 0 <= j < |a| ==> BuildHeapTree(a, j, color) in Preorder(BuildHeapTree(a, 0, color))
  {
    var t := BuildHeapTree(a, 0, color);
    if a != [] {
      assert HeapQueue(a, 0, color) == [t];
      BfsHeapQueue(a, 0, color);
      BfsVisitsTree(t);
      var v := Bfs([t]);
      MultisetSize(v, Preorder(t));
      forall j | 0 <= j < |a| ensures BuildHeapTree(a, j, color) in Preorder(t) {
        assert v[j] == BuildHeapTree(a, j, color);
        assert v[j] in multiset(v);
      }
    }
  }

  /** Sequences with the same multiset have the same length. */
  lemma MultisetSize<T>(s: seq<T>, u: seq<T>)
    requires multiset(s) == multiset(u)
    ensures |s| == |u|
  {
    assert |multiset(s)| == |s| && |multiset(u)| == |u|;
  }
}
