/**
 * Usage scenarios written as client methods whose contracts pin down the
 * exact outcome of each scenario: those of tests/test.rs and the `display`
 * test of src/list2.rs, plus four `DoubleLinkList` scenarios that are not
 * among the repository's tests (`BothEnds`, `EmptyPops`,
 * `PopFrontThenPushBack` and `PopBackThenPushFront`).
 */
module Scenarios {
  import opened Shared
  import SinglyLinked
  import DoublyLinked

  /** Three pushes onto a fresh stack: 0, then 1, then 2. */
  method ZeroOneTwo() returns (l: SinglyLinked.List<int>)
    ensures fresh(l) && l.Valid() && l.Contents() == [2, 1, 0]
    ensures forall i :: 0 <= i < |l.nodes| ==> fresh(l.nodes[i])
  {
    l := new SinglyLinked.List();
    l.Push(0);
    l.Push(1);
    l.Push(2);
  }

  /** Pushes and pops interleave in last-in, first-out order, ending in `None`. */
  method Basic() returns (pops: seq<Option<int>>)
    ensures pops == [Some(2), Some(3), Some(1), Some(0), None]
  {
    var l := ZeroOneTwo();
    var a := l.Pop();
    l.Push(3);
    var b := l.Pop();
    var c := l.Pop();
    var d := l.Pop();
    var e := l.Pop();
    pops := [a, b, c, d, e];
  }

  /** The rendering of the values 2, 1, 0 in the stack's format. */
  lemma FormatTwoOneZero()
    ensures "List[" + Join(Map(Decimal, [2, 1, 0]), ", ") + "]" == "List[2, 1, 0]"
  {
    assert Decimal(2) == [Digit(2)] == "2";
    assert Decimal(1) == [Digit(1)] == "1";
    assert Decimal(0) == [Digit(0)] == "0";
    var parts := Map(Decimal, [2, 1, 0]);
    assert parts == ["2", "1", "0"] by {
      assert |parts| == 3 && parts[0] == "2" && parts[1] == "1" && parts[2] == "0";
    }
    assert Join(["0"], ", ") == "0";
    assert Join(["1", "0"], ", ") == "1" + ", " + "0";
    assert Join(["2", "1", "0"], ", ") == "2" + ", " + "1, 0";
  }

  /** The `Display` of the stack 2, 1, 0. */
  method Format() returns (s: string)
    ensures s == "List[2, 1, 0]"
  {
    var l := ZeroOneTwo();
    s := l.Fmt(Decimal);
    FormatTwoOneZero();
  }

  /** The borrowing iterator yields the values head first. */
  method IterCollect() returns (s: seq<int>)
    ensures s == [2, 1, 0]
  {
    var l := ZeroOneTwo();
    s := SinglyLinked.CollectIter(l);
  }

  /** Doubling every value through the writing iterator, then reading them back. */
  method IterMutDouble() returns (s: seq<int>)
    ensures s == [4, 2, 0]
  {
    var l := ZeroOneTwo();
    SinglyLinked.UpdateEach(l, x => x * 2);
    s := SinglyLinked.CollectIter(l);
  }

  /** The draining iterator yields the values head first. */
  method IntoIterCollect() returns (s: seq<int>)
    ensures s == [2, 1, 0]
  {
    var l := ZeroOneTwo();
    s := SinglyLinked.Drain(l);
  }

  /** `n - 1` down to 0. */
  function Countdown(n: nat): (r: seq<int>)
    ensures |r| == n
    ensures forall i :: 0 <= i < n ==> r[i] == n - 1 - i
  {
    if n == 0 then [] else [n - 1] + Countdown(n - 1)
  }

  /**
   * `push_back` of 0 up to `n - 1`, then `Display`: the renderings of
   * `n - 1` down to 0 joined by " -> ", which is how the expected string is
   * built for `n` = 10.
   */
  method Display(n: nat) returns (s: string)
    ensures s == Join(Map(Decimal, Countdown(n)), " -> ")
  {
    var l := new DoublyLinked.DoubleLinkList<int>(0);
    for i := 0 to n
      invariant l.Valid() && l.Counted() && l.contents == Countdown(i)
      invariant forall j :: 0 <= j < |l.nodes| ==> fresh(l.nodes[j])
    {
      l.PushBack(i);
    }
    s := l.Fmt(Decimal);
  }

  /** One element pushed at each end comes back out of the opposite ends. */
  method BothEnds() returns (back: Option<int>, front: Option<int>, size: nat)
    ensures back == Some(1) && front == Some(2) && size == 0
  {
    var l := new DoublyLinked.DoubleLinkList<int>(0);
    l.PushBack(1);
    l.PushFront(2);
    back := l.PopBack();
    front := l.PopFront();
    size := l.size;
  }

  /**
   * On one new list: `pop_front` yields `None` (taking `head.prev`), the
   * rendering is still empty, and `pop_back` yields `None` too.
   */
  method EmptyPops() returns (front: Option<int>, s: string, back: Option<int>)
    ensures front == None && s == "" && back == None
  {
    var l := new DoublyLinked.DoubleLinkList<int>(0);
    front := l.PopFront();
    s := l.Fmt(Decimal);
    back := l.PopBack();
  }

  /** An empty `pop_front`, then `push_back(1)`: the list is whole again and renders "1". */
  method PopFrontThenPushBack() returns (r: Option<int>, s: string)
    ensures r == None && s == "1"
  {
    var l := new DoublyLinked.DoubleLinkList<int>(0);
    r := l.PopFront();
    l.PushBack(1);
    assert l.Valid() && l.contents == [1];
    s := l.Fmt(Decimal);
    assert Map(Decimal, [1]) == ["1"];
  }

  /** An empty `pop_back`, then `push_front(1)`: the list is whole again and renders "1". */
  method PopBackThenPushFront() returns (r: Option<int>, s: string)
    ensures r == None && s == "1"
  {
    var l := new DoublyLinked.DoubleLinkList<int>(0);
    r := l.PopBack();
    l.PushFront(1);
    assert l.Valid() && l.contents == [1];
    s := l.Fmt(Decimal);
    assert Map(Decimal, [1]) == ["1"];
  }
}
