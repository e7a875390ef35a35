/**
 * Dishes of a menu, selections of dishes given as menu indices, and the
 * cost and calorie totals of a selection.
 */
module Menus {
  /** A dish: its name (the dictionary key), its cost and its calories. */
  datatype Dish = Dish(name: string, cost: nat, calories: int)

  /** A menu lists its dishes in the insertion order of the Python `menu` dictionary. */
  type Menu = seq<Dish>

  /** What a strategy returns: the chosen names, their calories and the money spent. */
  datatype Outcome = Outcome(dishes: seq<string>, calories: int, spent: int)

  /** Dictionary keys are unique. */
  predicate DistinctNames(menu: Menu)
  {
    forall i, j :: 0 <= i < j < |menu| ==> menu[i].name != menu[j].name
  }

  /** Every index of `s` denotes a dish of `menu`. */
  predicate InRange(menu: Menu, s: seq<nat>)
  {
    forall i :: 0 <= i < |s| ==> s[i] < |menu|
  }

  /** No index occurs twice in `s`. */
  predicate Distinct(s: seq<nat>)
  {
    forall i, j :: 0 <= i < j < |s| ==> s[i] != s[j]
  }

  /** A selection: a set of dishes of `menu`, each chosen at most once. */
  predicate Selection(menu: Menu, s: seq<nat>)
  {
    InRange(menu, s) && Distinct(s)
  }

  /** The indices of `s` follow the menu order. */
  predicate Increasing(s: seq<nat>)
  {
    forall i, j :: 0 <= i < j < |s| ==> s[i] < s[j]
  }

  /** Total cost of the dishes at the indices of `s`. */
  function CostOf(menu: Menu, s: seq<nat>): nat
    requires InRange(menu, s)
  {
    if s == [] then 0 else menu[s[0]].cost + CostOf(menu, s[1..])
  }

  /** Total calories of the dishes at the indices of `s`. */
  function CaloriesOf(menu: Menu, s: seq<nat>): int
    requires InRange(menu, s)
  {
    if s == [] then 0 else menu[s[0]].calories + CaloriesOf(menu, s[1..])
  }

  /** The names of the dishes at the indices of `s`, in the same order. */
  function Names(menu: Menu, s: seq<nat>): (r: seq<string>)
    requires InRange(menu, s)
    ensures |r| == |s|
    ensures forall i :: 0 <= i < |s| ==> r[i] == menu[s[i]].name
  {
    if s == [] then [] else [menu[s[0]].name] + Names(menu, s[1..])
  }

  /** Totals and names of a concatenation are those of its parts combined. */
  lemma {:induction false} ConcatTotals(menu: Menu, a: seq<nat>, b: seq<nat>)
    requires InRange(menu, a) && InRange(menu, b)
    ensures InRange(menu, a + b)
    ensures CostOf(menu, a + b) == CostOf(menu, a) + CostOf(menu, b)
    ensures CaloriesOf(menu, a + b) == CaloriesOf(menu, a) + CaloriesOf(menu, b)
    ensures Names(menu, a + b) == Names(menu, a) + Names(menu, b)
  {
    if a != [] {
      assert (a + b)[1..] == a[1..] + b;
      ConcatTotals(menu, a[1..], b);
    } else {
      assert a + b == b;
    }
  }

  /**
   * Removing the `k`-th index of a selection takes exactly that dish's cost
   * and calories off the totals.
   */
  lemma RemoveTotals(menu: Menu, s: seq<nat>, k: nat)
    requires InRange(menu, s) && k < |s|
    ensures InRange(menu, s[..k] + s[k + 1..])
    ensures CostOf(menu, s) == menu[s[k]].cost + CostOf(menu, s[..k] + s[k + 1..])
    ensures CaloriesOf(menu, s) == menu[s[k]].calories + CaloriesOf(menu, s[..k] + s[k + 1..])
  {
    assert s == s[..k] + ([s[k]] + s[k + 1..]);
    ConcatTotals(menu, [s[k]], s[k + 1..]);
    ConcatTotals(menu, s[..k], [s[k]] + s[k + 1..]);
    ConcatTotals(menu, s[..k], s[k + 1..]);
  }

  /** Indices in menu order name distinct dishes when the menu's names are distinct. */
  lemma IncreasingNamesDistinct(menu: Menu, s: seq<nat>)
    requires DistinctNames(menu) && InRange(menu, s) && Increasing(s)
    ensures forall i, j :: 0 <= i < j < |s| ==> Names(menu, s)[i] != Names(menu, s)[j]
  {
  }
}
