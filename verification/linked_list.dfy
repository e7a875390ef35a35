/**
 * Singly linked lists of integers: reversal, insertion sort, sorted insertion,
 * merging, conversions to and from arrays, and the `LinkedList` wrapper with
 * `append`, `to_list` and `display`.
 *
 * A chain of `ListNode` objects is modelled as an immutable `Node` value; the
 * in-place relinking of `ListNode.next` fields becomes the construction of a new
 * chain with the same observable sequence of values.
 */
module LinkedLists {

  /** A chain of list nodes; `Nil` stands for the absent node (`None`). */
  datatype Node = Nil | Cons(val: int, next: Node)

  /** The `LinkedList` object: only its head node. */
  datatype LinkedList = LinkedList(head: Node)

  /** The message `display` returns for a list without nodes. */
  const EmptyMessage: string := "The list is empty"

  /** The separator `display` puts between two values. */
  const Arrow: string := " -> "

  // ---------------------------------------------------------------------
  // Abstraction of a chain to the sequence of its values
  // ---------------------------------------------------------------------

  /** The values of the chain starting at `head`, head first. */
  function Elements(head: Node): seq<int>
    decreases head
  {
    match head
    case Nil => []
    case Cons(v, next) => [v] + Elements(next)
  }

  /** `s` is in non-decreasing order. */
  predicate Sorted(s: seq<int>)
  {
    forall i, j :: 0 <= i < j < |s| ==> s[i] <= s[j]
  }

  /** The reverse of `s`, defined by peeling off its first element. */
  function Reversed(s: seq<int>): (r: seq<int>)
    ensures |r| == |s|
    ensures forall i :: 0 <= i < |s| ==> r[i] == s[|s| - 1 - i]
  {
    if s == [] then [] else Reversed(s[1..]) + [s[0]]
  }

  // ---------------------------------------------------------------------
  // Conversions
  // ---------------------------------------------------------------------

  /** `create_linked_list_from_array`: one node per array element, in order. */
  function CreateLinkedListFromArray(arr: seq<int>): (head: Node)
    ensures Elements(head) == arr
    ensures head == Nil <==> arr == []
  {
    if arr == [] then Nil else Cons(arr[0], CreateLinkedListFromArray(arr[1..]))
  }

  /** `linked_list_to_array`: walk the chain, collecting the values. */
  method LinkedListToArray(head: Node) returns (result: seq<int>)
    ensures result == Elements(head)
    ensures |result| == 0 <==> head == Nil
  {
    result := [];
    var current := head;
    while current != Nil
      invariant result + Elements(current) == Elements(head)
      decreases current
    {
      result := result + [current.val];
      current := current.next;
    }
  }

  /** Rebuilding a chain from its values gives back the same chain. */
  lemma {:induction false} ArrayRoundTrip(head: Node)
    ensures CreateLinkedListFromArray(Elements(head)) == head
  {
    match head
    case Nil =>
    case Cons(v, next) =>
      assert Elements(head)[1..] == Elements(next);
      ArrayRoundTrip(next);
  }

  // ---------------------------------------------------------------------
  // Reversal
  // ---------------------------------------------------------------------

  /** `reverse_list`: relink every node to its predecessor. */
  method ReverseList(head: Node) returns (r: Node)
    ensures Elements(r) == Reversed(Elements(head))
    ensures r == Nil <==> head == Nil
  {
    var prev := Nil;
    var current := head;
    while current != Nil
      invariant Reversed(Elements(current)) + Elements(prev) == Reversed(Elements(head))
      decreases current
    {
      var nextTemp := current.next;
      assert Elements(current)[1..] == Elements(nextTemp);
      prev := Cons(current.val, prev);
      current := nextTemp;
    }
    r := prev;
  }

  // ---------------------------------------------------------------------
  // Sorted insertion and insertion sort
  // ---------------------------------------------------------------------

  /** The position before the first element of `s` that is at least `v`. */
  function FirstAtLeast(s: seq<int>, v: int): (k: nat)
    ensures k <= |s|
    ensures forall i :: 0 <= i < k ==> s[i] < v
    ensures k < |s| ==> s[k] >= v
  {
    if s == [] || s[0] >= v then 0 else 1 + FirstAtLeast(s[1..], v)
  }

  /**
   * `insert_into_sorted_list`: put a node holding `v` at the front when the
   * head is absent or not smaller than `v`, otherwise after the run of values
   * smaller than `v`.
   */
  function InsertIntoSortedList(head: Node, v: int): (r: Node)
    ensures var s := Elements(head); var k := FirstAtLeast(s, v);
            Elements(r) == s[..k] + [v] + s[k..]
    decreases head
  {
    match head
    case Nil => Cons(v, Nil)
    case Cons(x, next) =>
      if x >= v then Cons(v, head)
      else
        assert Elements(head)[1..] == Elements(next);
        Cons(x, InsertIntoSortedList(next, v))
  }

  /** Sorted insertion adds exactly one occurrence of `v`. */
  lemma {:induction false} InsertAddsValue(head: Node, v: int)
    ensures multiset(Elements(InsertIntoSortedList(head, v)))
            == multiset(Elements(head)) + multiset{v}
  {
    var s := Elements(head);
    var k := FirstAtLeast(s, v);
    assert s == s[..k] + s[k..];
    assert multiset(s) == multiset(s[..k]) + multiset(s[k..]);
  }

  /** Placing `v` between the elements below it and those not below it keeps `s` sorted. */
  lemma SortedInsertAt(s: seq<int>, k: nat, v: int)
    requires Sorted(s) && k <= |s|
    requires forall i :: 0 <= i < k ==> s[i] < v
    requires k < |s| ==> v <= s[k]
    ensures Sorted(s[..k] + [v] + s[k..])
  {
    var r := s[..k] + [v] + s[k..];
    forall i, j | 0 <= i < j < |r| ensures r[i] <= r[j] {
      if j < k {
        assert r[i] == s[i] && r[j] == s[j];
      } else if j == k {
        assert r[i] == s[i] && r[j] == v;
      } else if i < k {
        assert r[i] == s[i] && r[j] == s[j - 1];
      } else if i == k {
        assert r[i] == v && r[j] == s[j - 1];
      } else {
        assert r[i] == s[i - 1] && r[j] == s[j - 1];
      }
    }
  }

  /** Sorted insertion keeps a sorted list sorted. */
  lemma {:induction false} InsertKeepsSorted(head: Node, v: int)
    requires Sorted(Elements(head))
    ensures Sorted(Elements(InsertIntoSortedList(head, v)))
  {
    var s := Elements(head);
    SortedInsertAt(s, FirstAtLeast(s, v), v);
  }

  /** The number of nodes in the chain. */
  function Length(head: Node): (n: nat)
    ensures n == |Elements(head)|
  {
    match head
    case Nil => 0
    case Cons(_, next) => 1 + Length(next)
  }

  /**
   * `sort_linked_list`: chains of length 0 or 1 are returned as they are;
   * otherwise every node is inserted, in list order, into a growing sorted chain.
   */
  method SortLinkedList(head: Node) returns (r: Node)
    ensures Sorted(Elements(r))
    ensures multiset(Elements(r)) == multiset(Elements(head))
    ensures Length(head) <= 1 ==> r == head
  {
    if head == Nil || head.next == Nil {
      return head;
    }
    var sortedHead := Nil;
    var current := head;
    while current != Nil
      invariant Sorted(Elements(sortedHead))
      invariant multiset(Elements(sortedHead)) + multiset(Elements(current))
                == multiset(Elements(head))
      decreases current
    {
      var nextTemp := current.next;
      InsertAddsValue(sortedHead, current.val);
      InsertKeepsSorted(sortedHead, current.val);
      assert Elements(current) == [current.val] + Elements(nextTemp);
      sortedHead := InsertIntoSortedList(sortedHead, current.val);
      current := nextTemp;
    }
    r := sortedHead;
  }

  /**
   * Two sorted sequences with the same elements are equal: whatever order the
   * insertion sort processes nodes in, its output is the unique sorted
   * arrangement of the input.
   */
  lemma {:induction false} SortedPermutationUnique(a: seq<int>, b: seq<int>)
    requires Sorted(a) && Sorted(b)
    requires multiset(a) == multiset(b)
    ensures a == b
    decreases |a|
  {
    if a == [] {
      assert |multiset(b)| == 0;
    } else {
      assert |b| == |a| by { assert |multiset(b)| == |multiset(a)|; }
      assert a[0] == b[0] by {
        assert a[0] in multiset(b) && b[0] in multiset(a);
        HeadIsLeast(b, a[0]);
        HeadIsLeast(a, b[0]);
      }
      MultisetTail(a);
      MultisetTail(b);
      SortedPermutationUnique(a[1..], b[1..]);
      assert a == [a[0]] + a[1..];
      assert b == [b[0]] + b[1..];
    }
  }

  /** The head of a non-decreasing sequence is at most each of its members. */
  lemma HeadIsLeast(s: seq<int>, x: int)
    requires Sorted(s) && x in s
    ensures s[0] <= x
  {
    var i :| 0 <= i < |s| && s[i] == x;
    if i > 0 {
      assert s[0] <= s[i];
    }
  }

  /** Dropping the first element removes one occurrence of it. */
  lemma MultisetTail(a: seq<int>)
    requires a != []
    ensures multiset(a[1..]) == multiset(a) - multiset{a[0]}
  {
    assert a == [a[0]] + a[1..];
  }

  // ---------------------------------------------------------------------
  // Merging two sorted chains
  // ---------------------------------------------------------------------

  /**
   * `merge_sorted`: repeatedly take the smaller head, the node of `list1` when
   * the heads are equal, then append whatever remains of either chain.
   */
  function MergeSorted(list1: Node, list2: Node): (r: Node)
    ensures multiset(Elements(r)) == multiset(Elements(list1)) + multiset(Elements(list2))
    ensures |Elements(r)| == |Elements(list1)| + |Elements(list2)|
    decreases list1, list2
  {
    match (list1, list2)
    case (Nil, _) => list2
    case (_, Nil) => list1
    case (Cons(x, next1), Cons(y, next2)) =>
      if x <= y then Cons(x, MergeSorted(next1, list2))
      else Cons(y, MergeSorted(list1, next2))
  }

  /** Every element of `s` is at least `x`. */
  predicate AllAtLeast(s: seq<int>, x: int)
  {
    forall i :: 0 <= i < |s| ==> x <= s[i]
  }

  /** A lower bound of all elements carries over to any rearrangement. */
  lemma AllAtLeastPermutation(s: seq<int>, t: seq<int>, x: int)
    requires multiset(s) == multiset(t)
    requires AllAtLeast(t, x)
    ensures AllAtLeast(s, x)
  {
    forall i | 0 <= i < |s| ensures x <= s[i] {
      assert s[i] in multiset(t);
      var j :| 0 <= j < |t| && t[j] == s[i];
    }
  }

  /** A value at most every element of a sorted sequence stays sorted in front of it. */
  lemma SortedCons(x: int, s: seq<int>)
    requires Sorted(s) && AllAtLeast(s, x)
    ensures Sorted([x] + s)
  {
  }

  /**
   * The smaller head `x` of two sorted sequences, put before any sorted
   * rearrangement of what is left of both, gives a sorted sequence.
   */
  lemma MergeStep(x: int, t: seq<int>, other: seq<int>, rest: seq<int>)
    requires Sorted([x] + t) && Sorted(other) && (other != [] ==> x <= other[0])
    requires Sorted(rest) && multiset(rest) == multiset(t + other)
    ensures Sorted([x] + rest)
  {
    assert AllAtLeast(t + other, x) by {
      forall i | 0 <= i < |t + other| ensures x <= (t + other)[i] {
        if i < |t| {
          assert ([x] + t)[0] <= ([x] + t)[i + 1];
        } else {
          assert other[0] <= other[i - |t|];
        }
      }
    }
    AllAtLeastPermutation(rest, t + other, x);
    SortedCons(x, rest);
  }

  /** Dropping the head of a sorted sequence leaves it sorted. */
  lemma SortedTail(x: int, t: seq<int>)
    requires Sorted([x] + t)
    ensures Sorted(t)
  {
    forall i, j | 0 <= i < j < |t| ensures t[i] <= t[j] {
      assert ([x] + t)[i + 1] <= ([x] + t)[j + 1];
    }
  }

  /** Merging two sorted chains yields a sorted chain. */
  lemma {:induction false} MergeSortedIsSorted(list1: Node, list2: Node)
    requires Sorted(Elements(list1)) && Sorted(Elements(list2))
    ensures Sorted(Elements(MergeSorted(list1, list2)))
    decreases list1, list2
  {
    match (list1, list2)
    case (Nil, _) =>
    case (_, Nil) =>
    case (Cons(x, next1), Cons(y, next2)) =>
      var s1, s2 := Elements(list1), Elements(list2);
      var t1, t2 := Elements(next1), Elements(next2);
      assert s1 == [x] + t1 && s2 == [y] + t2;
      SortedTail(x, t1);
      SortedTail(y, t2);
      if x <= y {
        MergeSortedIsSorted(next1, list2);
        MergeStep(x, t1, s2, Elements(MergeSorted(next1, list2)));
      } else {
        MergeSortedIsSorted(list1, next2);
        assert multiset(s1 + t2) == multiset(t2 + s1);
        MergeStep(y, t2, s1, Elements(MergeSorted(list1, next2)));
      }
  }

  // ---------------------------------------------------------------------
  // The LinkedList wrapper
  // ---------------------------------------------------------------------

  /** Attach a new node holding `v` after the last node of the chain. */
  function AppendNode(head: Node, v: int): (r: Node)
    ensures Elements(r) == Elements(head) + [v]
    decreases head
  {
    match head
    case Nil => Cons(v, Nil)
    case Cons(x, next) => Cons(x, AppendNode(next, v))
  }

  /** `LinkedList.append`: the list gains `v` as its last value. */
  function Append(list: LinkedList, v: int): (r: LinkedList)
    ensures Elements(r.head) == Elements(list.head) + [v]
    ensures r.head != Nil
  {
    LinkedList(AppendNode(list.head, v))
  }

  /** `LinkedList.to_list`: the values of the list, head first. */
  method ToList(list: LinkedList) returns (result: seq<int>)
    ensures result == Elements(list.head)
  {
    result := LinkedListToArray(list.head);
  }

  // ---------------------------------------------------------------------
  // Decimal rendering of integers (Python's `str` on an `int`)
  // ---------------------------------------------------------------------

  /** The character of a decimal digit. */
  function DigitChar(d: nat): (c: char)
    requires d < 10
    ensures '0' <= c <= '9'
  {
    "0123456789"[d]
  }

  /** The value of a decimal digit character. */
  function DigitValue(c: char): nat
    requires '0' <= c <= '9'
  {
    (c as int - '0' as int) as nat
  }

  /** Every character of `s` is a decimal digit. */
  predicate AllDigits(s: string)
  {
    forall i :: 0 <= i < |s| ==> '0' <= s[i] <= '9'
  }

  /** The number a string of decimal digits denotes, most significant digit first. */
  function DigitsValue(s: string): nat
    requires AllDigits(s)
  {
    if s == [] then 0 else DigitsValue(s[..|s| - 1]) * 10 + DigitValue(s[|s| - 1])
  }

  /** The shortest decimal numeral of `n`. */
  function NatToString(n: nat): (s: string)
    ensures |s| >= 1 && AllDigits(s)
    ensures s[0] == '0' ==> n == 0
  {
    if n < 10 then [DigitChar(n)] else NatToString(n / 10) + [DigitChar(n % 10)]
  }

  /** Reading back the numeral of `n` gives `n`. */
  lemma {:induction false} NatToStringRoundTrip(n: nat)
    ensures DigitsValue(NatToString(n)) == n
  {
    var s := NatToString(n);
    if n >= 10 {
      NatToStringRoundTrip(n / 10);
      assert s[..|s| - 1] == NatToString(n / 10);
    }
  }

  /** `str(n)`: a minus sign before the numeral of `|n|` when `n` is negative. */
  function IntToString(n: int): (s: string)
    ensures |s| >= 1
    ensures n < 0 <==> s[0] == '-'
    ensures n >= 0 ==> '0' <= s[0] <= '9'
  {
    if n < 0 then "-" + NatToString(-n) else NatToString(n)
  }

  /** The text of a negative number without its sign is the numeral of its magnitude. */
  lemma SignDropped(m: nat)
    requires m > 0
    ensures IntToString(-(m as int))[1..] == NatToString(m)
  {
    var digits := NatToString(m);
    assert IntToString(-(m as int)) == "-" + digits;
    assert ("-" + digits)[1..] == digits;
  }

  /** Reading back the text of `n` gives `n`: its sign, then the digits of `|n|`. */
  lemma IntToStringRoundTrip(n: int)
    ensures n < 0 ==> AllDigits(IntToString(n)[1..]) && DigitsValue(IntToString(n)[1..]) == -n
    ensures n >= 0 ==> AllDigits(IntToString(n)) && DigitsValue(IntToString(n)) == n
  {
    if n < 0 {
      SignDropped(-n);
      NatToStringRoundTrip(-n);
    } else {
      NatToStringRoundTrip(n);
    }
  }

  // ---------------------------------------------------------------------
  // display
  // ---------------------------------------------------------------------

  /** The rendered values of a chain joined by `Arrow`. */
  function JoinValues(head: Node): (s: string)
    requires head != Nil
    ensures |s| >= 1 && s[0] == IntToString(head.val)[0]
    decreases head
  {
    match head
    case Cons(v, next) =>
      if next == Nil then IntToString(v) else IntToString(v) + Arrow + JoinValues(next)
  }

  /**
   * `LinkedList.display`: the empty-list message when there are no nodes, and
   * otherwise the values joined by `Arrow`.
   */
  function Display(list: LinkedList): (s: string)
    ensures s == EmptyMessage <==> list.head == Nil
    ensures list.head != Nil ==> |s| >= 1 && (s[0] == '-' || '0' <= s[0] <= '9')
    ensures list.head != Nil ==> s[0] == IntToString(list.head.val)[0]
  {
    if list.head == Nil then EmptyMessage else JoinValues(list.head)
  }

  /** Appending a value extends the display by an arrow and that value. */
  lemma {:induction false} DisplayAppend(list: LinkedList, v: int)
    ensures Display(Append(list, v))
            == if list.head == Nil then IntToString(v)
               else Display(list) + Arrow + IntToString(v)
  {
    JoinAppend(list.head, v);
  }

  /** Helper for `DisplayAppend`, by induction on the chain. */
  lemma {:induction false} JoinAppend(head: Node, v: int)
    ensures JoinValues(AppendNode(head, v))
            == if head == Nil then IntToString(v)
               else JoinValues(head) + Arrow + IntToString(v)
    decreases head
  {
    match head
    case Nil =>
    case Cons(x, next) =>
      JoinAppend(next, v);
  }
}
