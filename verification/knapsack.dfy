/**
 * The dynamic-programming menu strategy (0/1 knapsack): a table of the best
 * calories for every prefix of the menu and every budget up to the maximum,
 * then a backtrack from the last row that recovers the chosen dishes.
 */
module Knapsack {
  import opened Wrappers
  import opened Menus
  import Greedy

  /** A negative budget leaves the table without columns, so reading it fails. */
  datatype Error = IndexError

  function Max(a: int, b: int): int
  {
    if a >= b then a else b
  }

  /**
   * The recurrence the table follows: the best calories using the first `i`
   * dishes with budget `b`, either skipping dish `i - 1` or, when it fits,
   * taking it.
   */
  function Best(menu: Menu, i: nat, b: nat): (r: int)
    requires i <= |menu|
    ensures r >= 0
  {
    if i == 0 then 0
    else
      var d := menu[i - 1];
      if d.cost <= b then Max(Best(menu, i - 1, b), d.calories + Best(menu, i - 1, b - d.cost))
      else Best(menu, i - 1, b)
  }

  /**
   * The dishes the backtrack chooses from row `i` and column `b`: dish `i - 1`
   * is taken exactly when the row's entry differs from the one above it.
   */
  function Witness(menu: Menu, i: nat, b: nat): (r: seq<nat>)
    requires i <= |menu|
    ensures |r| <= i
    ensures forall k :: 0 <= k < |r| ==> r[k] < i
  {
    if i == 0 then []
    else if Best(menu, i, b) != Best(menu, i - 1, b) then
      Witness(menu, i - 1, b - menu[i - 1].cost) + [i - 1]
    else
      Witness(menu, i - 1, b)
  }

  /** A change between two rows means the dish fitted and was taken. */
  lemma ChangedMeansTaken(menu: Menu, i: nat, b: nat)
    requires 0 < i <= |menu| && Best(menu, i, b) != Best(menu, i - 1, b)
    ensures menu[i - 1].cost <= b
    ensures Best(menu, i, b) == menu[i - 1].calories + Best(menu, i - 1, b - menu[i - 1].cost)
  {
  }

  /**
   * The backtracked dishes are a selection of the first `i` dishes in menu
   * order, cost at most `b`, and reach the table entry's calories.
   */
  lemma {:induction false} WitnessAchievesBest(menu: Menu, i: nat, b: nat)
    requires i <= |menu|
    ensures var w := Witness(menu, i, b);
      && InRange(menu, w) && Increasing(w) && (forall k :: 0 <= k < |w| ==> w[k] < i)
      && CostOf(menu, w) <= b && CaloriesOf(menu, w) == Best(menu, i, b)
  {
    if i > 0 {
      if Best(menu, i, b) != Best(menu, i - 1, b) {
        ChangedMeansTaken(menu, i, b);
        var c := menu[i - 1].cost;
        WitnessAchievesBest(menu, i - 1, b - c);
        TakeLast(menu, Witness(menu, i - 1, b - c), i - 1, b);
      } else {
        WitnessAchievesBest(menu, i - 1, b);
      }
    }
  }

  /**
   * Appending dish `x` to an increasing selection of earlier dishes that
   * leaves room for it gives an increasing selection within `b`.
   */
  lemma TakeLast(menu: Menu, w: seq<nat>, x: nat, b: nat)
    requires x < |menu| && menu[x].cost <= b
    requires InRange(menu, w) && Increasing(w) && forall k :: 0 <= k < |w| ==> w[k] < x
    requires CostOf(menu, w) <= b - menu[x].cost
    ensures InRange(menu, w + [x]) && Increasing(w + [x])
    ensures forall k :: 0 <= k < |w + [x]| ==> (w + [x])[k] < x + 1
    ensures CostOf(menu, w + [x]) <= b
    ensures CaloriesOf(menu, w + [x]) == CaloriesOf(menu, w) + menu[x].calories
  {
    ConcatTotals(menu, w, [x]);
    AppendIncreasing(w, x);
  }

  /** Appending an index above all of an increasing sequence keeps it increasing. */
  lemma AppendIncreasing(w: seq<nat>, x: nat)
    requires Increasing(w) && forall k :: 0 <= k < |w| ==> w[k] < x
    ensures Increasing(w + [x]) && forall k :: 0 <= k < |w + [x]| ==> (w + [x])[k] < x + 1
  {
  }

  /**
   * No selection of the first `i` dishes costing at most `b` has more
   * calories than the table entry.
   */
  lemma {:induction false} BestIsUpperBound(menu: Menu, i: nat, b: nat, s: seq<nat>)
    requires i <= |menu| && Selection(menu, s)
    requires forall k :: 0 <= k < |s| ==> s[k] < i
    requires CostOf(menu, s) <= b
    ensures CaloriesOf(menu, s) <= Best(menu, i, b)
  {
    if i == 0 {
      assert |s| == 0;
    } else if k :| 0 <= k < |s| && s[k] == i - 1 {
      RemoveTotals(menu, s, k);
      var t := s[..k] + s[k + 1..];
      assert forall m :: 0 <= m < |t| ==> t[m] < i - 1 by {
        forall m | 0 <= m < |t| ensures t[m] < i - 1 {
          if m < k { assert t[m] == s[m]; } else { assert t[m] == s[m + 1]; }
        }
      }
      assert Distinct(t) by {
        forall m, n | 0 <= m < n < |t| ensures t[m] != t[n] {
          var m' := if m < k then m else m + 1;
          var n' := if n < k then n else n + 1;
          assert t[m] == s[m'] && t[n] == s[n'];
        }
      }
      BestIsUpperBound(menu, i - 1, b - menu[i - 1].cost, t);
    } else {
      BestIsUpperBound(menu, i - 1, b, s);
    }
  }

  /** Row `i` of the table, column by column, from row `i - 1`. */
  method FillRow(menu: Menu, i: nat, prev: seq<int>, maxBudget: nat) returns (row: seq<int>)
    requires 0 < i <= |menu| && |prev| == maxBudget + 1
    requires forall b :: 0 <= b <= maxBudget ==> prev[b] == Best(menu, i - 1, b)
    ensures |row| == maxBudget + 1
    ensures forall b :: 0 <= b <= maxBudget ==> row[b] == Best(menu, i, b)
  {
    var cost, calories := menu[i - 1].cost, menu[i - 1].calories;
    row := [];
    var budget := 0;
    while budget <= maxBudget
      invariant 0 <= budget <= maxBudget + 1 && |row| == budget
      invariant forall b :: 0 <= b < budget ==> row[b] == Best(menu, i, b)
    {
      var v := if cost <= budget then Max(prev[budget], calories + prev[budget - cost]) else prev[budget];
      row := row + [v];
      budget := budget + 1;
    }
  }

  /** The table: row `i` holds the best calories of the first `i` dishes for each budget. */
  method FillTable(menu: Menu, maxBudget: nat) returns (dp: seq<seq<int>>)
    ensures |dp| == |menu| + 1
    ensures forall i :: 0 <= i <= |menu| ==> |dp[i]| == maxBudget + 1
    ensures forall i, b :: 0 <= i <= |menu| && 0 <= b <= maxBudget ==> dp[i][b] == Best(menu, i, b)
  {
    dp := [seq(maxBudget + 1, _ => 0)];
    var i := 1;
    while i <= |menu|
      invariant 1 <= i <= |menu| + 1 && |dp| == i
      invariant forall k :: 0 <= k < i ==> |dp[k]| == maxBudget + 1
      invariant forall k, b :: 0 <= k < i && 0 <= b <= maxBudget ==> dp[k][b] == Best(menu, k, b)
    {
      var row := FillRow(menu, i, dp[i - 1], maxBudget);
      dp := dp + [row];
      i := i + 1;
    }
  }

  /** Taking dish `i - 1` while backtracking moves it from the witness to the picks. */
  lemma BacktrackTake(menu: Menu, i: nat, b: nat, picks: seq<nat>)
    requires 0 < i <= |menu| && InRange(menu, picks)
    requires Best(menu, i, b) != Best(menu, i - 1, b)
    ensures menu[i - 1].cost <= b && InRange(menu, [i - 1] + picks)
    ensures Witness(menu, i, b) + picks == Witness(menu, i - 1, b - menu[i - 1].cost) + ([i - 1] + picks)
    ensures Names(menu, [i - 1] + picks) == [menu[i - 1].name] + Names(menu, picks)
    ensures CostOf(menu, [i - 1] + picks) == menu[i - 1].cost + CostOf(menu, picks)
  {
    ChangedMeansTaken(menu, i, b);
    var w := Witness(menu, i - 1, b - menu[i - 1].cost);
    assert (w + [i - 1]) + picks == w + ([i - 1] + picks);
    assert ([i - 1] + picks)[1..] == picks;
  }

  /**
   * The backtrack: from the last row up, a dish is chosen when its row's
   * entry differs from the row above, and its cost leaves the budget.
   */
  method Backtrack(menu: Menu, dp: seq<seq<int>>, maxBudget: nat)
    returns (selected: seq<string>, remaining: nat)
    requires |dp| == |menu| + 1
    requires forall i :: 0 <= i <= |menu| ==> |dp[i]| == maxBudget + 1
    requires forall i, b :: 0 <= i <= |menu| && 0 <= b <= maxBudget ==> dp[i][b] == Best(menu, i, b)
    ensures InRange(menu, Witness(menu, |menu|, maxBudget))
    ensures selected == Names(menu, Witness(menu, |menu|, maxBudget))
    ensures remaining + CostOf(menu, Witness(menu, |menu|, maxBudget)) == maxBudget
  {
    var n := |menu|;
    selected, remaining := [], maxBudget;
    ghost var picks: seq<nat> := [];
    var i := n;
    while i > 0
      invariant 0 <= i <= n && remaining <= maxBudget
      invariant InRange(menu, picks)
      invariant Witness(menu, n, maxBudget) == Witness(menu, i, remaining) + picks
      invariant selected == Names(menu, picks)
      invariant remaining + CostOf(menu, picks) == maxBudget
    {
      if dp[i][remaining] != dp[i - 1][remaining] {
        BacktrackTake(menu, i, remaining, picks);
        // `solve_with_dynamic_programming` appends and reverses once at the end; prepending is the same.
        selected := [menu[i - 1].name] + selected;
        remaining := remaining - menu[i - 1].cost;
        picks := [i - 1] + picks;
      }
      i := i - 1;
    }
    assert Witness(menu, n, maxBudget) == [] + picks == picks;
  }

  /**
   * The dynamic-programming strategy. A negative budget fails when the table
   * is read; otherwise the result is an optimal selection in menu order.
   */
  method SolveWithDynamicProgramming(menu: Menu, maxBudget: int) returns (r: Result<Outcome, Error>)
    ensures r.Failure? <==> maxBudget < 0
    ensures r.Success? ==>
      var w := Witness(menu, |menu|, maxBudget);
      && InRange(menu, w) && Increasing(w)
      && r.value.dishes == Names(menu, w)
      && r.value.calories == Best(menu, |menu|, maxBudget) == CaloriesOf(menu, w)
      && r.value.spent == CostOf(menu, w) <= maxBudget
    ensures r.Success? ==> forall s :: Selection(menu, s) && CostOf(menu, s) <= maxBudget ==>
      CaloriesOf(menu, s) <= r.value.calories
    ensures r.Success? && DistinctNames(menu) ==>
      forall i, j :: 0 <= i < j < |r.value.dishes| ==> r.value.dishes[i] != r.value.dishes[j]
  {
    if maxBudget < 0 {
      return Failure(IndexError);
    }
    var n := |menu|;
    var dp := FillTable(menu, maxBudget);
    var selected, remaining := Backtrack(menu, dp, maxBudget);
    WitnessAchievesBest(menu, n, maxBudget);
    var w := Witness(menu, n, maxBudget);
    forall s | Selection(menu, s) && CostOf(menu, s) <= maxBudget
      ensures CaloriesOf(menu, s) <= Best(menu, n, maxBudget)
    {
      BestIsUpperBound(menu, n, maxBudget, s);
    }
    if DistinctNames(menu) {
      IncreasingNamesDistinct(menu, w);
    }
    r := Success(Outcome(selected, dp[n][maxBudget], maxBudget - remaining));
  }

  /**
   * For the same menu and budget, the greedy choice never has more calories
   * than the table's optimum.
   */
  lemma GreedyNeverAboveBest(menu: Menu, maxBudget: nat)
    requires Greedy.PositiveCosts(menu)
    ensures CaloriesOf(menu, Greedy.Picks(menu, Greedy.Ordered(menu), maxBudget))
         <= Best(menu, |menu|, maxBudget)
  {
    var order := Greedy.Ordered(menu);
    Greedy.SortedDistinct(menu, order);
    Greedy.PicksSelection(menu, order, maxBudget);
    BestIsUpperBound(menu, |menu|, maxBudget, Greedy.Picks(menu, order, maxBudget));
  }

  /** Both strategies on the same input: the dynamic one never reaches fewer calories. */
  method CompareStrategies(menu: Menu, maxBudget: int)
    returns (greedy: Result<Outcome, Greedy.Error>, dynamic: Result<Outcome, Error>)
    ensures greedy.Success? && dynamic.Success? ==> greedy.value.calories <= dynamic.value.calories
    ensures greedy.Success? <==> Greedy.PositiveCosts(menu)
    ensures dynamic.Success? <==> maxBudget >= 0
  {
    greedy := Greedy.SolveWithGreedyStrategy(menu, maxBudget);
    dynamic := SolveWithDynamicProgramming(menu, maxBudget);
    if greedy.Success? && dynamic.Success? {
      GreedyNeverAboveBest(menu, maxBudget);
    }
  }
}
