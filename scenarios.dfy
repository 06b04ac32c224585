/** The unit tests of the list and of its cursors, each as a method whose
    postcondition states the outcome the test checks. */
module ListScenarios {
  import opened ListModel
  import opened LinkedList
  import opened Iterators
  import opened ListQueries

  /** Prepending 54 and then 53 to a list holding 55, then draining it. */
  method PrependScenario() returns (values: seq<int>)
    ensures values == [53, 54, 55]
  {
    var head := new Node(55);
    head := head.Prepend(54);
    head := head.Prepend(53);
    values := IntoVec(head);
  }

  /** Appending 2, 3, 4 and 5 to a list holding 1, then draining it. */
  method AppendScenario() returns (values: seq<int>)
    ensures values == [1, 2, 3, 4, 5]
  {
    var head := new Node(1);
    head.Append(2);
    head.Append(3);
    head.Append(4);
    head.Append(5);
    values := IntoVec(head);
  }

  /** Popping a one-node list fails; popping a two-node list leaves the
      second value at the head. */
  method PopFrontScenario() returns (singleFails: bool, newFront: int)
    ensures singleFails && newFront == 2
  {
    var single := new Node(1);
    var r1 := single.PopFront();
    singleFails := r1.Err?;
    var pair := new Node(1);
    pair.Append(2);
    var r2 := pair.PopFront();
    newFront := r2.value.value;
  }

  /** Membership before and after appending. */
  method HasValueScenario() returns (has1: bool, has2: bool, has1After: bool, has2After: bool, has4After: bool)
    ensures has1 && !has2 && has1After && has2After && !has4After
  {
    var head := new Node(1);
    has1 := HasValue(head, 1);
    has2 := HasValue(head, 2);
    head.Append(2);
    head.Append(3);
    has1After := HasValue(head, 1);
    has2After := HasValue(head, 2);
    has4After := HasValue(head, 4);
  }

  /** The length of a list built from five values. */
  method LenScenario() returns (n: nat)
    ensures n == 5
  {
    var head := FromIter([1, 2, 3, 4, 5]);
    n := Len(head);
  }

  /** A list built from a sequence yields that sequence. */
  method FromIterScenario() returns (values: seq<int>)
    ensures values == [1, 2, 3, 4, 5]
  {
    var head := FromIter([1, 2, 3, 4, 5]);
    values := Collect(head);
  }

  /** Equal lists compare equal, different ones do not, and a removal
      breaks an equality. */
  method PartialEqScenario() returns (sameEqual: bool, differentEqual: bool, afterRemoveEqual: bool)
    ensures sameEqual && !differentEqual && !afterRemoveEqual
  {
    var list1 := FromIter([1, 2, 3, 4, 5]);
    var list2 := FromIter([2, 3, 4, 5, 6]);
    var list3 := FromIter([1, 2, 3, 4, 5]);
    sameEqual := Equals(list1, list3);
    differentEqual := Equals(list1, list2);
    var r := list1.Remove(2);
    afterRemoveEqual := Equals(list1, list3);
  }

  /** Inserting at position 5 of a five-value list fails; inserting at
      position 3 puts the value after the fourth one. */
  method InsertScenario() returns (pastEndFails: bool, values: seq<int>)
    ensures pastEndFails && values == [1, 2, 3, 4, 55, 5]
  {
    var list1 := FromIter([1, 2, 3, 4, 5]);
    var r1 := list1.Insert(55, 5);
    pastEndFails := r1.Err?;
    var list2 := FromIter([1, 2, 3, 4, 5]);
    var r2 := list2.Insert(55, 3);
    values := Collect(list2);
  }

  /** Inserting at position 1 puts the value third; inserting at position 4
      of a five-value list puts it last. */
  method Insert2Scenario() returns (values1: seq<int>, values2: seq<int>)
    ensures values1 == [1, 2, 55, 3, 4, 5]
    ensures values2 == [1, 2, 3, 4, 5, 55]
  {
    var list1 := FromIter([1, 2, 3, 4, 5]);
    var r1 := list1.Insert(55, 1);
    values1 := Collect(list1);
    var list2 := FromIter([1, 2, 3, 4, 5]);
    var r2 := list2.Insert(55, 4);
    values2 := Collect(list2);
  }

  /** Removing index 2, then the last index, then past the end. */
  method RemoveScenario() returns (removed1: int, values1: seq<int>, removed2: int, values2: seq<int>,
                                   pastEndFails: bool, values3: seq<int>)
    ensures removed1 == 3 && values1 == [1, 2, 4, 5]
    ensures removed2 == 5 && values2 == [1, 2, 4]
    ensures pastEndFails && values3 == [1, 2, 4]
  {
    var list := FromIter([1, 2, 3, 4, 5]);
    var r1 := list.Remove(2);
    values1 := Collect(list);
    removed1 := r1.value;
    var r2 := list.Remove(3);
    values2 := Collect(list);
    removed2 := r2.value;
    var r3 := list.Remove(3);
    values3 := Collect(list);
    pastEndFails := r3.Err?;
  }

  /** `Iter` yields the values in order, and after a prepend it starts from
      the new head. */
  method IterScenario() returns (values: seq<int>, valuesAfterPrepend: seq<int>)
    ensures values == [1, 2, 3, 4]
    ensures valuesAfterPrepend == [0, 1, 2, 3, 4]
  {
    var head := FromIter([1, 2, 3, 4]);
    values := Collect(head);
    var newHead := head.Prepend(0);
    valuesAfterPrepend := Collect(newHead);
  }

  /** `IntoIter` yields the owned values in order. */
  method IntoIterScenario() returns (values: seq<int>)
    ensures values == [1, 2, 3, 4]
  {
    var head := FromIter([1, 2, 3, 4]);
    values := IntoVec(head);
  }

  /** Doubling every value through `IterMut`, then reading with `Iter`. */
  method IterMutScenario() returns (values: seq<int>)
    ensures values == [2, 4, 6, 8]
  {
    var head := FromIter([1, 2, 3, 4]);
    DoubleAll(head);
    values := Collect(head);
  }
}
