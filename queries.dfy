/** The list operations that are written in terms of the cursors: the
    queries `len`, `has_value` and `==`, and collecting a list through each
    of the three cursors. */
module ListQueries {
  import opened ListModel
  import opened LinkedList
  import opened Iterators

  /** `len`: counts what `Iter` yields. */
  method Len<T>(head: Node<T>) returns (n: nat)
    requires head.Valid()
    ensures n == |head.Contents| && 1 <= n
  {
    var it := new Iter(head);
    ghost var contents := head.Contents;
    n := 0;
    while true
      invariant it.Valid()
      invariant n + |it.Remaining| == |contents|
      decreases |it.Remaining|
    {
      var item := it.Next();
      if item.None? {
        break;
      }
      n := n + 1;
    }
    head.NonEmpty();
  }

  /** `has_value`: looks for `t` among what `Iter` yields, stopping at the
      first match. */
  method HasValue<T(==)>(head: Node<T>, t: T) returns (b: bool)
    requires head.Valid()
    ensures b <==> t in head.Contents
  {
    var it := new Iter(head);
    ghost var contents := head.Contents;
    ghost var done: seq<T> := [];
    while true
      invariant it.Valid()
      invariant done + it.Remaining == contents && t !in done
      decreases |it.Remaining|
    {
      ghost var rest := it.Remaining;
      var item := it.Next();
      if item.None? {
        break;
      }
      if item.value == t {
        assert contents[|done|] == t;
        return true;
      }
      ShiftFront(done, rest);
      done := done + [item.value];
    }
    return false;
  }

  /** `==`: lists of different lengths differ; otherwise the two `Iter`s are
      zipped and the first differing pair decides. */
  method Equals<T(==)>(a: Node<T>, b: Node<T>) returns (eq: bool)
    requires a.Valid() && b.Valid()
    ensures eq <==> a.Contents == b.Contents
  {
    var la := Len(a);
    var lb := Len(b);
    if la != lb {
      return false;
    }
    var ia := new Iter(a);
    var ib := new Iter(b);
    eq := ZipEqual(ia, ib);
  }

  /** The zip loop of `==`: steps both cursors together until one of them
      is exhausted, and stops at the first pair of differing values. */
  method ZipEqual<T(==)>(ia: Iter<T>, ib: Iter<T>) returns (eq: bool)
    requires ia.Valid() && ib.Valid() && ia != ib
    requires |ia.Remaining| == |ib.Remaining|
    modifies ia, ib
    ensures eq <==> old(ia.Remaining) == old(ib.Remaining)
  {
    ghost var done: seq<T> := [];
    while true
      invariant ia.Valid() && ib.Valid()
      invariant done + ia.Remaining == old(ia.Remaining)
      invariant done + ib.Remaining == old(ib.Remaining)
      invariant |ia.Remaining| == |ib.Remaining|
      decreases |ia.Remaining|
    {
      ghost var restA, restB := ia.Remaining, ib.Remaining;
      var x := ia.Next();
      if x.None? {
        break;
      }
      var y := ib.Next();
      if y.None? {
        // both cursors have the same number of values left
        assert false;
        break;
      }
      if x.value != y.value {
        assert old(ia.Remaining)[|done|] == x.value && old(ib.Remaining)[|done|] == y.value;
        return false;
      }
      ShiftFront(done, restA);
      ShiftFront(done, restB);
      done := done + [x.value];
    }
    return true;
  }

  /** `iter().collect()`: the values `Iter` yields, in order. */
  method Collect<T>(head: Node<T>) returns (s: seq<T>)
    requires head.Valid()
    ensures s == head.Contents
  {
    var it := new Iter(head);
    ghost var contents := head.Contents;
    s := [];
    while true
      invariant it.Valid()
      invariant s + it.Remaining == contents
      decreases |it.Remaining|
    {
      ghost var rest := it.Remaining;
      var item := it.Next();
      if item.None? {
        break;
      }
      ShiftFront(s, rest);
      s := s + [item.value];
    }
  }

  /** `into_iter().collect()`: the values `IntoIter` yields, in order; the
      list is consumed. */
  method IntoVec<T>(head: Node<T>) returns (s: seq<T>)
    requires head.Valid()
    modifies head.Repr
    ensures s == old(head.Contents)
  {
    var it := new IntoIter(head);
    s := [];
    while true
      invariant it.Valid()
      invariant s + it.Contents == old(head.Contents)
      invariant forall n :: n in it.Spine ==> n in old(head.Repr)
      decreases |it.Contents|
    {
      ghost var rest := it.Contents;
      var item := it.Next();
      if item.None? {
        break;
      }
      ShiftFront(s, rest);
      s := s + [item.value];
    }
  }

  /** The `iter_mut` loop of the tests: every value is doubled in place
      through the nodes `IterMut` hands out; links and nodes stay as they are. */
  method DoubleAll(head: Node<int>)
    requires head.Valid()
    modifies head.Repr
    ensures head.Valid()
    ensures head.Contents == Doubled(old(head.Contents))
    ensures head.Spine == old(head.Spine) && head.Repr == old(head.Repr)
  {
    var it := new IterMut(head);
    ghost var original := head.Contents;
    while true
      invariant it.Valid() && it.list == head && it.index <= |original|
      invariant head.Spine == old(head.Spine) && head.Repr == old(head.Repr)
      invariant head.Contents == Doubled(original[..it.index]) + original[it.index..]
      decreases |head.Spine| - it.index
    {
      ghost var rest := it.Remaining;
      var item := it.Next();
      if item.None? {
        break;
      }
      var node := item.value;
      DoubledGrows(original, it.index - 1);
      head.SetValue(node, it.index - 1, 2 * node.value);
    }
  }

  /** Building a list from a sequence and collecting it with `Iter` gives
      the sequence back. */
  method CollectFromIter<T>(values: seq<T>) returns (collected: seq<T>)
    requires 0 < |values|
    ensures collected == values
  {
    var head := FromIter(values);
    collected := Collect(head);
  }

  /** Once `Iter` has yielded every value, each further `next` yields nothing. */
  method IterEndsForever<T>(head: Node<T>) returns (after1: Option<T>, after2: Option<T>)
    requires head.Valid()
    ensures after1.None? && after2.None?
  {
    var it := new Iter(head);
    while true
      invariant it.Valid()
      decreases |it.Remaining|
    {
      var item := it.Next();
      if item.None? {
        break;
      }
    }
    after1 := it.Next();
    after2 := it.Next();
  }

  /** Once `IntoIter` has yielded every value, each further `next` yields nothing. */
  method IntoIterEndsForever<T>(head: Node<T>) returns (after1: Option<T>, after2: Option<T>)
    requires head.Valid()
    modifies head.Repr
    ensures after1.None? && after2.None?
  {
    var it := new IntoIter(head);
    while true
      invariant it.Valid()
      invariant forall n :: n in it.Spine ==> n in old(head.Repr)
      decreases |it.Contents|
    {
      var item := it.Next();
      if item.None? {
        break;
      }
    }
    after1 := it.Next();
    after2 := it.Next();
  }

  /** `IterMut` hands out every node of the chain once, in order, and then
      nothing on each further `next`. */
  method IterMutVisitsEachNode<T>(head: Node<T>) returns (visited: seq<Node<T>>, after: Option<Node<T>>)
    requires head.Valid()
    ensures visited == head.Spine && after.None?
  {
    var it := new IterMut(head);
    visited := [];
    while true
      invariant it.Valid() && it.list == head
      invariant visited + it.Remaining == head.Spine
      decreases |it.Remaining|
    {
      ghost var rest := it.Remaining;
      var item := it.Next();
      if item.None? {
        break;
      }
      ShiftFront(visited, rest);
      visited := visited + [item.value];
    }
    after := it.Next();
  }
}
