# Algorithms course final project, modelled in Dafny

The repository is a set of small Python exercises on classic algorithms. This
project models the four exercises that carry real algorithmic content and proves
what each one promises:

- **Singly linked lists** (`task1.py`): the list class (`append`, `display`,
  `to_list`), conversion from and to arrays, in-place reversal, insertion sort
  built on sorted insertion, and merging of two sorted lists.
  Module `LinkedLists` (`linked_list.dfy`).
- **Dijkstra's algorithm with a binary heap** (`task3.py`):
  `find_shortest_paths` over an adjacency map with non-negative weights,
  including its `KeyError` on an unknown source or neighbour, and the demo
  graph. Modules `Graphs` (walks and the definition of shortest distances),
  `Dijkstra` (the algorithm and its loop invariant) and `DijkstraScenarios`
  (concrete instances).
- **Binary heap as a tree, traversals and colouring** (`task4.py`,
  `task5.py`): building the tree of a heap array, the queue-based breadth-first
  and stack-based depth-first traversals, the blue colour gradient, and
  colouring the nodes in visiting order. Modules `Trees`, `Traversals`,
  `Gradients` and `Coloring`.
- **Choosing dishes within a budget** (`task6.py`): the greedy strategy by
  calories per unit of cost, and the 0/1-knapsack dynamic programme with
  backtracking. Modules `Menus`, `Greedy` and `Knapsack`.

`Wrappers` holds the `Option` and `Result` types. Python's exceptions become
`Failure` values: `KeyError` in Dijkstra, `ZeroDivisionError` in the greedy
ratio and the one-colour gradient, `IndexError` in the dynamic programme.

Some conventions of the model:

- Linked lists are immutable chains (`Node = Nil | Cons`). The in-place node
  relinking of the source returns a new chain with the same values in the same
  order.
- Tree nodes carry an `id`. This plays the part of the source's `uuid` node
  identity, and for a tree built from a heap array the id is the array index.
- Distances are `Fin(n)` or `Inf`. The heap is a multiset of
  (distance, vertex) entries.
- A menu is a sequence of dishes in dictionary order. A selection is a
  sequence of distinct menu indices.

Main results:

- Dijkstra returns exactly the shortest-walk distances whenever every vertex
  reachable from the source is a key of the graph. Otherwise it raises
  `KeyError` for a reachable vertex that is not a key.
- The dynamic programme's choice is within budget and no selection within
  budget has more calories. The greedy choice therefore never beats it.
- Both traversals visit every node exactly once. Depth-first order is the
  pre-order, and breadth-first order over a heap tree is the array order.
- Colouring changes nothing but the colours, and gives each visited node the
  gradient colour of its visiting position.
- Sorting, inserting, merging and reversing lists preserve the values as the
  source promises.

## Model

| member | source | states |
|---|---|---|
| LinkedLists.CreateLinkedListFromArray | task1.py:148-160 | The chain holds the array's values in array order, and it is empty exactly when the array is. |
| LinkedLists.LinkedListToArray | task1.py:162-169 | The array holds the chain's values from head to tail, and it is empty exactly when the chain is. |
| LinkedLists.ArrayRoundTrip | task1.py:148-169 | Converting a chain to an array and back gives back the same chain. |
| LinkedLists.ReverseList | task1.py:49-72 | Position i of the result holds the value at position n-1-i of the input. The result is empty exactly when the input is. |
| LinkedLists.InsertIntoSortedList | task1.py:97-120 | The new value goes just before the first value not smaller than it (at the end if there is none), and every other value keeps its order. |
| LinkedLists.InsertAddsValue | task1.py:97-120 | Insertion adds exactly one copy of the value and loses none of the others. |
| LinkedLists.InsertKeepsSorted | task1.py:108-120 | Inserting into a non-decreasing chain keeps it non-decreasing. |
| LinkedLists.SortLinkedList | task1.py:74-95 | The result is non-decreasing and holds the same multiset of values. A chain of at most one node is returned as it is. |
| LinkedLists.SortedPermutationUnique | task1.py:74-95 | Two non-decreasing sequences with the same multiset of values are equal, so the sorted result is fully determined by the input's values. |
| LinkedLists.MergeSorted | task1.py:122-146 | The merge holds the values of both chains together and nothing else, and its length is the sum of theirs. |
| LinkedLists.MergeSortedIsSorted | task1.py:134-145 | Merging two non-decreasing chains gives a non-decreasing chain. |
| LinkedLists.Append | task1.py:19-29 | The list's values gain the new value at the end, and afterwards the list has a head. |
| LinkedLists.ToList | task1.py:40-47 | Returns the list's values from head to tail. |
| LinkedLists.AppendNode | task1.py:26-29 | Walking to the last node and linking a new node after it adds the value at the end of the chain and changes nothing before it. |
| LinkedLists.IntToString | task1.py:36 | The text of an integer is non-empty. It starts with '-' exactly when the integer is negative, and with a digit otherwise. |
| LinkedLists.IntToStringRoundTrip | task1.py:36 | Without its sign, the text of an integer is all digits, and reading those digits gives back its absolute value. |
| LinkedLists.NatToStringRoundTrip | task1.py:36 | Reading back the decimal digits of a natural number gives the number. |
| LinkedLists.JoinValues | task1.py:33-38 | The joined text of a non-empty chain is non-empty and begins as the text of the head value begins. |
| LinkedLists.Display | task1.py:31-38 | The text is the empty-list message exactly when the list is empty. Otherwise it starts with the first character of the head value's decimal text (its sign or leading digit). |
| LinkedLists.DisplayAppend | task1.py:19-38 | After appending v, the display is the old display, then " -> ", then the text of v; for a previously empty list it is the text of v alone. |
| Menus.ConcatTotals | task6.py:30-36 | Cost, calories and name list of two selections put together are the sums and the concatenation of their parts. |
| Menus.IncreasingNamesDistinct | task6.py:70-79 | On a menu whose dish names are distinct, a selection listed in increasing index order names no dish twice. |
| Greedy.CrossMatchesRatio | task6.py:24 | For positive costs, the integer cross product orders two dishes exactly as their calories-per-cost ratios do, equal ratios included. |
| Greedy.PrecedesTransitive | task6.py:24 | The sort order (higher ratio first, ties in menu order) is transitive. |
| Greedy.PrecedesTotal | task6.py:24 | The sort order is irreflexive and asymmetric, and it orders any two distinct dishes. |
| Greedy.SortByRatio | task6.py:24 | The result lists each of the first n menu indices exactly once, in sort order. |
| Greedy.Ordered | task6.py:24 | Lists every menu index exactly once, by falling calories-per-cost ratio with equal ratios in menu order. |
| Greedy.SortedByUnique | task6.py:24 | At most one arrangement of a given set of indices is in sort order, so the stable descending sort has a unique result. |
| Greedy.Picks | task6.py:30-34 | The picks are taken from the order, and their total cost fits the starting budget. A negative budget picks nothing. |
| Greedy.PicksSelection | task6.py:30-34 | Scanning an order with no repeats picks every dish at most once. |
| Greedy.TakenIffFits | task6.py:30-34 | A dish is taken exactly when its cost fits the budget left by the picks made before it. |
| Greedy.Scan | task6.py:26-36 | The loop returns the picked names, their total calories, and the budget minus their total cost. |
| Greedy.SolveWithGreedyStrategy | task6.py:8-36 | Fails with ZeroDivisionError exactly when some dish costs nothing. Otherwise the result is the scan of the ratio order: distinct dishes whose names, calories and spending match, with spending between 0 and the budget, and nothing taken on a negative budget. |
| Knapsack.ChangedMeansTaken | task6.py:74-77 | If the best value changes when dish i joins, then dish i fits and the best value is its calories plus the best value of the rest within the budget left. |
| Knapsack.Best | task6.py:64-68 | The table's recurrence value is never negative, because taking no dish always fits the budget. |
| Knapsack.Witness | task6.py:73-77 | The backtracked choice from row i has at most i dishes, all among the first i of the menu. |
| Knapsack.WitnessAchievesBest | task6.py:70-81 | The backtracked choice uses the first i dishes in increasing order, costs at most the budget, and reaches the best calorie total. |
| Knapsack.BestIsUpperBound | task6.py:61-68 | No selection from the first i dishes within the budget has more calories than the table value. |
| Knapsack.FillRow | task6.py:62-68 | One row of the table filled from the previous row holds the best calorie totals for every budget. |
| Knapsack.FillTable | task6.py:57-68 | Every table entry is the best calorie total over the first i dishes within budget b. |
| Knapsack.Backtrack | task6.py:70-81 | The backtracked names are the dishes of the optimal choice in menu order, and the remaining budget plus their cost is the whole budget. |
| Knapsack.SolveWithDynamicProgramming | task6.py:39-83 | Fails with IndexError exactly when the budget is negative. Otherwise it returns dishes within budget whose calories are the best total, no selection within budget beats it, and no name repeats on a menu with distinct names. |
| Knapsack.GreedyNeverAboveBest | task6.py:8-83 | The greedy selection never has more calories than the dynamic programme's best. |
| Knapsack.CompareStrategies | task6.py:8-83 | When both strategies succeed, greedy calories are at most the dynamic-programming calories. Each strategy succeeds exactly under its own condition. |
| Graphs.AchievableExtend | task3.py:43-49 | A walk of weight d to u followed by an edge of u gives a walk to the neighbour of weight d plus the edge's weight. |
| Graphs.TriangleBoundsAllWalks | task3.py:43-51 | If the source is at 0 and no edge can improve a distance, every walk's weight bounds the distance of its end. |
| Graphs.ClosedIsClosedFrom | task3.py:43-47 | If every edge target is a key, every vertex reachable from a key source is a key. |
| Graphs.ShortestDistancesUnique | task3.py:8-51 | At most one table over the same vertices holds the shortest distances from a source. |
| Dijkstra.ExtractMin | task3.py:36 | Pops an entry of least distance and leaves the rest of the heap. |
| Dijkstra.RelaxEdge | task3.py:43-49 | Fails with KeyError exactly when the neighbour is not a key. Otherwise the neighbour's distance never grows and ends at most the new distance, every other distance is unchanged, and the heap gains an entry exactly when the neighbour's distance strictly drops; such a change records exactly the current distance plus the edge weight. |
| Dijkstra.RelaxEdges | task3.py:43-49 | Succeeds exactly when every neighbour is a key, and a failure names a missing neighbour. |
| Dijkstra.RelaxEdgesBounds | task3.py:43-49 | After the edges are relaxed, each neighbour's distance is at most the current distance plus the edge weight, and no distance has grown. |
| Dijkstra.RelaxEdgesChanges | task3.py:43-49 | A distance that changed is the current distance plus the weight of an edge to that vertex, and it is on the heap. |
| Dijkstra.RelaxEdgesFrontier | task3.py:43-49 | Relaxing only adds heap entries. Each new entry is at least the current distance and bounds its vertex's distance. |
| Dijkstra.RelaxEdgesNoOp | task3.py:43-49 | When no edge can improve a distance, relaxing changes neither the table nor the heap. |
| Dijkstra.InitialDistances | task3.py:29-30 | The table has the graph's vertices, 0 at the source, and infinity everywhere else. |
| Dijkstra.InvariantInit | task3.py:28-33 | The loop invariant holds before the first pop. |
| Dijkstra.InvariantStale | task3.py:38-40 | Skipping a popped entry larger than the recorded distance keeps the invariant. |
| Dijkstra.InvariantRelax | task3.py:42-49 | Settling the popped vertex and relaxing its edges keeps the invariant, with that vertex added to the settled set. |
| Dijkstra.ResettledNoOp | task3.py:39-49 | Popping an already settled vertex again at its recorded distance changes nothing. |
| Dijkstra.InvariantDone | task3.py:35-51 | With the heap empty, the table holds the shortest distances and every reachable vertex is a key. |
| Dijkstra.MissingKeyNotClosed | task3.py:43-47 | A reachable vertex that is not a key means the search cannot finish. |
| Dijkstra.SettleVertex | task3.py:42-49 | Relaxing the edges of a vertex popped at its recorded distance either raises KeyError for a reachable vertex that is not a key, or keeps the invariant with the vertex settled. A vertex already settled pushes nothing new. |
| Dijkstra.PopAndRelax | task3.py:35-49 | Pops an entry of least distance. A stale entry, whose distance exceeds the recorded one, is dropped, and the table and the rest of the heap stay as they were. Otherwise the vertex's edges are relaxed, which keeps the invariant or raises KeyError for a reachable vertex that is not a key. Each iteration settles a new vertex or shrinks the heap. |
| Dijkstra.FindShortestPaths | task3.py:8-51 | Raises KeyError for a missing source. It succeeds exactly when every vertex reachable from the source is a key, and a failure names a reachable non-key. On success the table has the graph's vertices, 0 at the source, no edge can improve it, and it holds the shortest walk distances (Inf for unreachable vertices). |
| DijkstraScenarios.DemoGraphClosed | task3.py:57-64 | Every neighbour in the demo graph is a vertex of it. |
| DijkstraScenarios.DemoShortest | task3.py:57-64 | S 0, A 5, B 2, C 8, D 7, E 9 are the shortest distances from S in the demo graph. |
| DijkstraScenarios.DemoDistancesUnique | task3.py:57-64 | No other table holds the shortest distances of the demo graph. |
| DijkstraScenarios.DemoRun | task3.py:57-64 | The demo run returns S 0, A 5, B 2, C 8, D 7, E 9. |
| DijkstraScenarios.SingleVertexRun | task3.py:25-33 | A one-vertex graph gives distance 0 to that vertex. |
| DijkstraScenarios.DisconnectedRun | task3.py:29-51 | A vertex with no walk from the source keeps distance infinity. |
| DijkstraScenarios.UnknownSourceRun | task3.py:25-26 | An unknown source raises KeyError naming it. |
| DijkstraScenarios.MissingNeighbourRun | task3.py:43-47 | An edge to a vertex that is not a key raises KeyError naming that vertex. |
| Trees.BuildHeapTree | task4.py:63-81 | Index i gives no node exactly when it is past the array. Otherwise the node holds element i. The same construction appears again at task5.py lines 71-87. |
| Trees.HeapTreeNodes | task5.py:82-86 | Every node of the built tree sits at its index with that element and the fresh colour, and it has a left or right child exactly when index 2i+1 or 2i+2 lies inside the array. |
| Trees.HeapTreeColors | task4.py:11-18 | In the heap visualisation every node keeps the fresh colour "skyblue" and holds the array element at its own index. |
| Traversals.BfsVisitsTree | task5.py:117-128 | The queue-based traversal from the root visits every node of the tree exactly once. |
| Traversals.BfsTraversal | task5.py:107-128 | An empty tree gives no nodes. Otherwise the loop visits the nodes in queue order, which is every node exactly once. |
| Traversals.EnqueueChildren | task5.py:124-127 | The queue gains the node's left child and then its right child, each only when present. |
| Traversals.DfsTraversal | task5.py:130-151 | The stack-based traversal visits the nodes in pre-order: node, left subtree, right subtree. |
| Traversals.StackStep | task5.py:144-150 | Popping the top node and pushing its right child and then its left child puts that node first and leaves the rest of the pre-order unchanged. |
| Traversals.PushChildren | task5.py:147-150 | The stack gains the right child and then the left child, each only when present, so the left child is popped first. |
| Traversals.DfsStep | task5.py:144-150 | One loop round moves the top node to the end of the visited list and keeps the rest of the pre-order pending, and what is left to visit shrinks. |
| Traversals.BfsOfHeapTree | task5.py:117-128 | Breadth-first order over a tree built from a heap array is the array order: the j-th visited node is index j with element j. |
| Traversals.HeapTreeSize | task4.py:63-81 | The built tree has exactly one node per array element. |
| Gradients.Hex2RoundTrip | task5.py:104 | Reading back the two hex digits of a byte gives the byte. |
| Gradients.Format | task5.py:104 | The text of a colour is seven characters beginning with '#'. |
| Gradients.FormatRoundTrip | task5.py:104 | A formatted colour is '#' and six lower-case hex digits, and it reads back as the same three channels. |
| Gradients.Channel | task5.py:101-103 | A channel is the truncated weighted mean of its ends: n-1 times the channel is at most the weighted sum, and the sum exceeds it by less than n-1. |
| Gradients.ColorAt | task5.py:100-103 | Every channel of every gradient colour lies between its start and stop values, so it is a byte. |
| Gradients.ChannelBounds | task5.py:101-103 | Each interpolated channel lies between its start and stop values, and it equals them at the first and last colour. |
| Gradients.ChannelMonotone | task5.py:101-103 | Along the gradient a channel never decreases. |
| Gradients.GradientShape | task5.py:100-104 | The gradient starts at #00008b and ends at #add8e6, and each channel never decreases along it. |
| Gradients.ColorStringMeaning | task5.py:100-104 | The text of colour i is well formed and reads back as colour i of the interpolation. |
| Gradients.GenerateGradient | task5.py:89-105 | Fails with ZeroDivisionError exactly when n is 1. Otherwise it gives max(n, 0) colours, the i-th being the well-formed text of interpolated colour i. |
| Coloring.VisitNodes | task5.py:163 | Either traversal visits exactly the tree's nodes, each once. |
| Coloring.PaintMap | task5.py:165-166 | Every visited node's id gets a colour, and with distinct ids it gets the colour at its visiting position. |
| Coloring.Recolor | task5.py:165-166 | Recolouring keeps the number of nodes. A node keeps its id and value, and it takes the painted colour when its id is painted and its old colour otherwise. |
| Coloring.RecolorKeepsShape | task5.py:165-166 | Recolouring changes no value, id or link of the tree, only colours. |
| Coloring.RecolorMeaning | task5.py:163-166 | After recolouring, every node of the tree was visited, and with distinct ids each carries the gradient colour of its visiting position. |
| Coloring.ApplyTraversalAndColor | task5.py:153-166 | Fails with ZeroDivisionError exactly when the tree has one node. Otherwise only colours change, every node is visited, and with distinct ids each node carries the gradient colour of its position in the traversal. |
| Coloring.UniqueIdsPermutation | task5.py:19 | Distinct node ids survive reordering of the visited nodes. |
| Coloring.HeapVisitUnique | task5.py:19 | Both traversals of a tree built from a heap array visit nodes with distinct ids. |
| Coloring.ColorHeapTree | task5.py:153-166 | For a tree built from a heap array the colouring fails exactly for one element. Otherwise only colours change, every visited node is a node of the result, every node carries the gradient colour of its visiting position, and under breadth-first order node i carries colour i. |

## Left out

- Drawing (`draw_tree`, `add_edges`, `networkx`, `matplotlib`) and every `__main__` demo and `print` are not modelled. The Dijkstra demo graph is modelled as a scenario.
- `task2.py` (fractal drawing) and `task7.py` (Monte Carlo dice simulation) are not part of this model.
- `heapq` is modelled as a multiset of (distance, vertex) entries. ExtractMin may return any entry of least distance. Python's tie-break between equal distances compares vertices. The distances do not depend on it, but which missing neighbour a KeyError names can. Python also raises TypeError when tied vertices cannot be compared, which is not modelled.
- Edge weights are natural numbers, and distances are natural numbers or infinity. The source's float weights and `float('inf')` are not modelled, and negative weights are outside the algorithm's contract.
- Dish costs are natural numbers. The greedy key `calories / cost` is a float in the source. The model compares ratios exactly, by cross-multiplying integers (Greedy.CrossMatchesRatio relates this to the exact real ratio). Two different ratios that a float rounds to the same value are not modelled.
- Gradients.GenerateGradient: the channel is computed with exact floor division. The source computes a float quotient and truncates it, which agrees for every n small enough that the float error stays below 1/(n-1).
- Node identity by `uuid4` is modelled by the `id` field. Coloring.ApplyTraversalAndColor states the per-position colours only when visited ids are distinct; for heap-built trees Coloring.HeapVisitUnique proves they are.
- Coloring.ApplyTraversalAndColor returns `Success` with an empty tree unchanged. The source would then call `draw_tree` on `None`, which is not modelled.
- The dictionary `menu` of the source is a sequence in insertion order, and names are distinct keys there. The model states name distinctness as a hypothesis (Menus.DistinctNames) rather than a type.
- Knapsack.SolveWithDynamicProgramming: a negative budget is the `IndexError` of reading row entries of an empty table. The backtracking prepends picks instead of appending and reversing at the end, which yields the same order.
- LinkedLists.MergeSorted: the `<=` tie-break only decides which of two equal integers comes first, and that cannot be observed on integer values.
- The linked-list algorithms build new immutable chains rather than relinking nodes in place. Node identity and aliasing are not modelled.
