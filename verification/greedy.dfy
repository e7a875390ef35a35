/**
 * The greedy menu strategy: dishes are ordered by calories per unit of cost,
 * highest first (a stable sort, so dishes of equal ratio keep their menu
 * order), and each dish is taken when its cost fits the budget still left.
 * Ratios are compared by cross-multiplication instead of float division.
 */
module Greedy {
  import opened Wrappers
  import opened Menus

  /** Computing a ratio with a zero cost divides by zero. */
  datatype Error = ZeroDivisionError

  /** Every dish of the menu has a positive cost. */
  predicate PositiveCosts(menu: Menu)
  {
    forall i :: 0 <= i < |menu| ==> menu[i].cost > 0
  }

  /** The exact calorie-per-cost ratio of a dish. */
  function Ratio(d: Dish): real
    requires d.cost > 0
  {
    d.calories as real / d.cost as real
  }

  /** Positive when `a` has the higher ratio, zero when the ratios are equal. */
  function Cross(a: Dish, b: Dish): int
  {
    a.calories * b.cost - b.calories * a.cost
  }

  /** Cross-multiplication orders dishes exactly as their ratios do. */
  lemma CrossMatchesRatio(a: Dish, b: Dish)
    requires a.cost > 0 && b.cost > 0
    ensures Cross(a, b) > 0 <==> Ratio(a) > Ratio(b)
    ensures Cross(a, b) == 0 <==> Ratio(a) == Ratio(b)
  {
    var x, y := a.cost as real, b.cost as real;
    var p, q := a.calories as real, b.calories as real;
    assert x * y > 0.0;
    assert Ratio(a) * (x * y) == p * y by {
      assert Ratio(a) * x == p;
    }
    assert Ratio(b) * (x * y) == q * x by {
      assert Ratio(b) * y == q;
    }
    assert Cross(a, b) as real == (Ratio(a) - Ratio(b)) * (x * y);
  }

  /** Dish `i` is placed before dish `j`: a higher ratio, or an equal one and earlier in the menu. */
  predicate Precedes(menu: Menu, i: nat, j: nat)
    requires i < |menu| && j < |menu|
  {
    var c := Cross(menu[i], menu[j]);
    c > 0 || (c == 0 && i < j)
  }

  /** Multiplying the cross products of a, b and of b, c gives that of a, c. */
  lemma CrossChain(a: Dish, b: Dish, c: Dish)
    ensures c.cost * Cross(a, b) + a.cost * Cross(b, c) == b.cost * Cross(a, c)
  {
  }

  /** A non-negative factor keeps the sign of a product. */
  lemma ProductSign(k: nat, x: int)
    ensures x >= 0 ==> k * x >= 0
    ensures k > 0 ==> (k * x > 0 <==> x > 0) && (k * x == 0 <==> x == 0)
  {
  }

  /** `Precedes` is transitive when every cost is positive. */
  lemma PrecedesTransitive(menu: Menu, i: nat, j: nat, k: nat)
    requires PositiveCosts(menu) && i < |menu| && j < |menu| && k < |menu|
    requires Precedes(menu, i, j) && Precedes(menu, j, k)
    ensures Precedes(menu, i, k)
  {
    var a, b, c := menu[i], menu[j], menu[k];
    CrossChain(a, b, c);
    ProductSign(c.cost, Cross(a, b));
    ProductSign(a.cost, Cross(b, c));
    ProductSign(b.cost, Cross(a, c));
  }

  /** Two different dishes are always placed one before the other, never both ways. */
  lemma PrecedesTotal(menu: Menu, i: nat, j: nat)
    requires i < |menu| && j < |menu|
    ensures !(Precedes(menu, i, j) && Precedes(menu, j, i))
    ensures i != j ==> Precedes(menu, i, j) || Precedes(menu, j, i)
  {
    assert Cross(menu[j], menu[i]) == -Cross(menu[i], menu[j]);
  }

  /** Each index precedes every later one. */
  predicate SortedBy(menu: Menu, order: seq<nat>)
    requires InRange(menu, order)
  {
    forall i, j :: 0 <= i < j < |order| ==> Precedes(menu, order[i], order[j])
  }

  /** Putting before a sorted order an index that precedes all of it keeps it sorted. */
  lemma SortedPrepend(menu: Menu, k: nat, order: seq<nat>)
    requires k < |menu| && InRange(menu, order) && SortedBy(menu, order)
    requires forall j :: 0 <= j < |order| ==> Precedes(menu, k, order[j])
    ensures InRange(menu, [k] + order) && SortedBy(menu, [k] + order)
  {
    var r := [k] + order;
    forall i, j | 0 <= i < j < |r| ensures Precedes(menu, r[i], r[j]) {
      if i > 0 {
        assert r[i] == order[i - 1] && r[j] == order[j - 1];
      }
    }
  }

  /** Inserts index `k` into a sorted order at its place. */
  function Insert(menu: Menu, order: seq<nat>, k: nat): (r: seq<nat>)
    requires PositiveCosts(menu) && InRange(menu, order) && SortedBy(menu, order)
    requires k < |menu| && k !in order
    ensures |r| == |order| + 1
    ensures forall x :: x in r <==> x in order || x == k
    ensures InRange(menu, r) && SortedBy(menu, r)
  {
    if order == [] then [k]
    else if Precedes(menu, k, order[0]) then
      InsertFront(menu, order, k);
      [k] + order
    else
      var rest := Insert(menu, order[1..], k);
      InsertLater(menu, order, k, rest);
      [order[0]] + rest
  }

  /** An index that precedes the head of a sorted order precedes all of it. */
  lemma InsertFront(menu: Menu, order: seq<nat>, k: nat)
    requires PositiveCosts(menu) && InRange(menu, order) && SortedBy(menu, order)
    requires k < |menu| && order != [] && Precedes(menu, k, order[0])
    ensures InRange(menu, [k] + order) && SortedBy(menu, [k] + order)
  {
    forall j | 0 <= j < |order| ensures Precedes(menu, k, order[j]) {
      if j > 0 {
        PrecedesTransitive(menu, k, order[0], order[j]);
      }
    }
    SortedPrepend(menu, k, order);
  }

  /** An index placed after the head of a sorted order leaves the head first. */
  lemma InsertLater(menu: Menu, order: seq<nat>, k: nat, rest: seq<nat>)
    requires InRange(menu, order) && SortedBy(menu, order)
    requires k < |menu| && order != [] && k != order[0] && !Precedes(menu, k, order[0])
    requires InRange(menu, rest) && SortedBy(menu, rest)
    requires forall x :: x in rest <==> x in order[1..] || x == k
    ensures InRange(menu, [order[0]] + rest) && SortedBy(menu, [order[0]] + rest)
  {
    PrecedesTotal(menu, k, order[0]);
    forall j | 0 <= j < |rest| ensures Precedes(menu, order[0], rest[j]) {
      assert rest[j] in rest;
      if rest[j] != k {
        var m :| 0 <= m < |order[1..]| && order[1..][m] == rest[j];
        assert order[m + 1] == rest[j];
      }
    }
    SortedPrepend(menu, order[0], rest);
  }

  /** The first `n` indices of the menu, sorted by `Precedes`. */
  function SortByRatio(menu: Menu, n: nat): (r: seq<nat>)
    requires PositiveCosts(menu) && n <= |menu|
    ensures |r| == n
    ensures forall x: nat :: x in r <==> x < n
    ensures InRange(menu, r) && SortedBy(menu, r)
  {
    if n == 0 then []
    else
      var prev := SortByRatio(menu, n - 1);
      var r := Insert(menu, prev, n - 1);
      assert forall x: nat :: x in r <==> x < n by {
        forall x: nat ensures x in r <==> x < n {
          assert x in r <==> x in prev || x == n - 1;
        }
      }
      r
  }

  /** The order in which the greedy strategy considers the dishes. */
  function Ordered(menu: Menu): (r: seq<nat>)
    requires PositiveCosts(menu)
    ensures |r| == |menu| && InRange(menu, r) && SortedBy(menu, r)
    ensures forall x: nat :: x in r <==> x < |menu|
  {
    SortByRatio(menu, |menu|)
  }

  /** A sorted order lists distinct indices. */
  lemma SortedDistinct(menu: Menu, order: seq<nat>)
    requires InRange(menu, order) && SortedBy(menu, order)
    ensures Distinct(order)
  {
    forall i, j | 0 <= i < j < |order| ensures order[i] != order[j] {
      PrecedesTotal(menu, order[i], order[j]);
    }
  }

  /**
   * The sorted order is determined by its elements: two sorted orders of the
   * same indices are equal, so the stable sort has only one possible result.
   */
  lemma {:induction false} SortedByUnique(menu: Menu, a: seq<nat>, b: seq<nat>)
    requires InRange(menu, a) && SortedBy(menu, a)
    requires InRange(menu, b) && SortedBy(menu, b)
    requires forall x :: x in a <==> x in b
    ensures a == b
    decreases |a|
  {
    SortedDistinct(menu, a);
    SortedDistinct(menu, b);
    if b != [] {
      assert b[0] in b && b[0] in a;
    }
    if a != [] {
      assert a[0] in a && a[0] in b;
      assert b != [];
      assert b[0] in b && b[0] in a;
      if a[0] != b[0] {
        PrecedesTotal(menu, a[0], b[0]);
        assert false;
      }
      forall x ensures x in a[1..] <==> x in b[1..] {
        TailMembers(a, x);
        TailMembers(b, x);
      }
      SortedByUnique(menu, a[1..], b[1..]);
      assert a == [a[0]] + a[1..] && b == [b[0]] + b[1..];
    }
  }

  /** In a sequence of distinct indices, the tail holds exactly the members other than the head. */
  lemma TailMembers(s: seq<nat>, x: nat)
    requires Distinct(s) && s != []
    ensures x in s[1..] <==> x in s && x != s[0]
  {
    if x in s && x != s[0] {
      var i :| 0 <= i < |s| && s[i] == x;
      assert s[1..][i - 1] == x;
    }
  }

  /**
   * The dishes the greedy scan takes, walking `order` with `left` money
   * remaining: a dish is taken when its cost fits what is left.
   */
  function Picks(menu: Menu, order: seq<nat>, left: int): (r: seq<nat>)
    requires InRange(menu, order)
    ensures InRange(menu, r)
    ensures forall x :: x in r ==> x in order
    ensures left >= 0 ==> CostOf(menu, r) <= left
    ensures left < 0 ==> r == []
  {
    if order == [] then []
    else if menu[order[0]].cost <= left then
      [order[0]] + Picks(menu, order[1..], left - menu[order[0]].cost)
    else
      Picks(menu, order[1..], left)
  }

  /** Scanning a prefix and then the rest with what is left scans the whole order. */
  lemma {:induction false} PicksSplit(menu: Menu, order: seq<nat>, left: int, k: nat)
    requires InRange(menu, order) && k <= |order|
    ensures InRange(menu, order[..k]) && InRange(menu, order[k..])
    ensures Picks(menu, order, left)
         == Picks(menu, order[..k], left)
            + Picks(menu, order[k..], left - CostOf(menu, Picks(menu, order[..k], left)))
    decreases k
  {
    if k == 0 {
      assert order[..0] == [] && order[0..] == order;
    } else {
      var d := menu[order[0]];
      assert order[..k][1..] == order[1..][..k - 1];
      assert order[k..] == order[1..][k - 1..];
      PicksSplit(menu, order[1..], if d.cost <= left then left - d.cost else left, k - 1);
    }
  }

  /** The picks of distinct indices are distinct. */
  lemma {:induction false} PicksSelection(menu: Menu, order: seq<nat>, left: int)
    requires InRange(menu, order) && Distinct(order)
    ensures Selection(menu, Picks(menu, order, left))
    decreases |order|
  {
    if order != [] {
      var d := menu[order[0]];
      var next := if d.cost <= left then left - d.cost else left;
      PicksSelection(menu, order[1..], next);
      var rest := Picks(menu, order[1..], next);
      if d.cost <= left {
        forall i | 0 <= i < |rest| ensures rest[i] != order[0] {
          assert rest[i] in order[1..];
        }
      }
    }
  }

  /**
   * The dish at position `k` of the order is taken if and only if its cost
   * fits the budget left after the dishes taken before it.
   */
  lemma TakenIffFits(menu: Menu, order: seq<nat>, left: int, k: nat)
    requires InRange(menu, order) && Distinct(order) && k < |order|
    ensures InRange(menu, order[..k])
    ensures order[k] in Picks(menu, order, left)
        <==> menu[order[k]].cost <= left - CostOf(menu, Picks(menu, order[..k], left))
  {
    PicksSplit(menu, order, left, k);
    var before := Picks(menu, order[..k], left);
    var after := Picks(menu, order[k..], left - CostOf(menu, before));
    assert order[k..][1..] == order[k + 1..];
  }

  /** Scanning one more position of the order appends its dish exactly when it fits. */
  lemma PicksStep(menu: Menu, order: seq<nat>, left: int, k: nat)
    requires InRange(menu, order) && k < |order|
    ensures InRange(menu, order[..k]) && InRange(menu, order[..k + 1])
    ensures var before := Picks(menu, order[..k], left);
      Picks(menu, order[..k + 1], left)
      == before + (if menu[order[k]].cost <= left - CostOf(menu, before) then [order[k]] else [])
  {
    PicksSplit(menu, order[..k + 1], left, k);
    assert order[..k + 1][..k] == order[..k];
    assert order[..k + 1][k..] == [order[k]];
  }

  /**
   * The greedy loop: walks `order` keeping the selected names, the calorie
   * total and the budget left, taking each dish whose cost fits.
   */
  method Scan(menu: Menu, order: seq<nat>, maxBudget: int)
    returns (selected: seq<string>, totalCalories: int, budgetLeft: int)
    requires InRange(menu, order)
    ensures selected == Names(menu, Picks(menu, order, maxBudget))
    ensures totalCalories == CaloriesOf(menu, Picks(menu, order, maxBudget))
    ensures budgetLeft == maxBudget - CostOf(menu, Picks(menu, order, maxBudget))
  {
    selected, totalCalories, budgetLeft := [], 0, maxBudget;
    var k := 0;
    while k < |order|
      invariant 0 <= k <= |order|
      invariant InRange(menu, order[..k])
      invariant selected == Names(menu, Picks(menu, order[..k], maxBudget))
      invariant totalCalories == CaloriesOf(menu, Picks(menu, order[..k], maxBudget))
      invariant budgetLeft == maxBudget - CostOf(menu, Picks(menu, order[..k], maxBudget))
    {
      var d := menu[order[k]];
      ghost var before := Picks(menu, order[..k], maxBudget);
      PicksStep(menu, order, maxBudget, k);
      ghost var step: seq<nat> := if d.cost <= budgetLeft then [order[k]] else [];
      ConcatTotals(menu, before, step);
      if d.cost <= budgetLeft {
        selected := selected + [d.name];
        totalCalories := totalCalories + d.calories;
        budgetLeft := budgetLeft - d.cost;
      }
      k := k + 1;
    }
    assert order[..|order|] == order;
  }

  /**
   * The greedy strategy: fails as the division does when some dish costs
   * nothing; otherwise scans the dishes in ratio order.
   */
  method SolveWithGreedyStrategy(menu: Menu, maxBudget: int) returns (r: Result<Outcome, Error>)
    ensures r.Failure? <==> exists i :: 0 <= i < |menu| && menu[i].cost == 0
    ensures r.Success? ==> PositiveCosts(menu)
    ensures r.Success? ==>
      var picks := Picks(menu, Ordered(menu), maxBudget);
      && Selection(menu, picks)
      && r.value.dishes == Names(menu, picks)
      && r.value.calories == CaloriesOf(menu, picks)
      && r.value.spent == CostOf(menu, picks)
    ensures r.Success? ==> 0 <= r.value.spent && (maxBudget >= 0 ==> r.value.spent <= maxBudget)
    ensures r.Success? && maxBudget < 0 ==> r.value.dishes == []
  {
    var i := 0;
    while i < |menu|
      invariant 0 <= i <= |menu|
      invariant forall j :: 0 <= j < i ==> menu[j].cost > 0
    {
      if menu[i].cost == 0 {
        return Failure(ZeroDivisionError);
      }
      i := i + 1;
    }
    var order := Ordered(menu);
    var selected, totalCalories, budgetLeft := Scan(menu, order, maxBudget);
    SortedDistinct(menu, order);
    PicksSelection(menu, order, maxBudget);
    r := Success(Outcome(selected, totalCalories, maxBudget - budgetLeft));
  }
}
