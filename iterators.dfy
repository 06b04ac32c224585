/** The three cursors over a list: `Iter` reads the values through a shared
    view, `IntoIter` consumes the list and hands out its values, and `IterMut`
    hands out each node in turn so that its value can be written in place.
    Each one yields the list's values (or nodes) head first, each exactly
    once, and then yields nothing on every later call. */
module Iterators {
  import opened LinkedList

  /** `Iter`: a shared cursor with an `exhausted` flag and the node it is at. */
  class Iter<T> {
    var exhausted: bool
    var current: Node<T>

    /** The nodes from `current` to the end of the chain, and the values
        still to be yielded. */
    ghost var Spine: seq<Node<T>>
    ghost var Remaining: seq<T>

    ghost predicate Valid()
      reads this, Spine
    {
      if exhausted then Remaining == []
      else 0 < |Spine| && current == Spine[0] && Chain(Spine, Remaining)
    }

    /** `Iter::new`: a cursor at the head, not exhausted. */
    constructor (head: Node<T>)
      requires head.Valid()
      ensures Valid() && Remaining == head.Contents
    {
      exhausted := false;
      current := head;
      Spine := head.Spine;
      Remaining := head.Contents;
    }

    /** `Iter::next`: yields the current value and steps to the successor,
        or sets `exhausted` when there is none. Only the cursor changes. */
    method Next() returns (r: Option<T>)
      requires Valid()
      modifies this
      ensures Valid()
      ensures old(Remaining) == [] ==> r.None? && Remaining == []
      ensures old(Remaining) != [] ==> && r == Some(old(Remaining)[0])
                                       && Remaining == old(Remaining)[1..]
      ensures old(exhausted) ==> exhausted
    {
      if exhausted {
        return None;
      }
      var value := current.value;
      if current.next != null {
        current := current.next;
        assert Chain(Spine[1..], Remaining[1..]) by {
          forall i | 0 <= i < |Spine| - 1
            ensures Spine[1..][i].next == if i + 1 < |Spine| - 1 then Spine[1..][i + 1] else null
          {
            assert Spine[i + 1].next == if i + 2 < |Spine| then Spine[i + 2] else null;
          }
        }
        Spine := Spine[1..];
      } else {
        exhausted := true;
      }
      Remaining := Remaining[1..];
      return Some(value);
    }
  }

  /** `IntoIter`: owns what is left of the list, as an optional node. */
  class IntoIter<T> {
    var current: Option<Node<T>>

    /** The nodes still owned, head first, and their values. */
    ghost var Spine: seq<Node<T>>
    ghost var Contents: seq<T>

    ghost predicate Valid()
      reads this, Spine
    {
      && (current.None? <==> Spine == [])
      && (current.Some? ==> current.value == Spine[0])
      && Chain(Spine, Contents)
    }

    /** `IntoIter::new`: takes over the whole list. */
    constructor (head: Node<T>)
      requires head.Valid()
      ensures Valid() && Spine == head.Spine && Contents == head.Contents
    {
      current := Some(head);
      Spine := head.Spine;
      Contents := head.Contents;
    }

    /** `IntoIter::next`: detaches the current node from its successor, keeps
        the successor and yields the detached node's value. */
    method Next() returns (r: Option<T>)
      requires Valid()
      modifies this, Spine
      ensures Valid()
      ensures old(Contents) == [] ==> r.None? && Contents == []
      ensures old(Contents) != [] ==> && r == Some(old(Contents)[0])
                                      && Contents == old(Contents)[1..]
      ensures old(Spine) != [] ==> Spine == old(Spine)[1..]
    {
      if current.None? {
        return None;
      }
      var node := current.value;
      var following := node.next;
      node.next := null;
      if following == null {
        current := None;
      } else {
        current := Some(following);
      }
      Spine := Spine[1..];
      Contents := Contents[1..];
      assert Chain(Spine, Contents) by {
        forall i | 0 <= i < |Spine| ensures Spine[i] == old(Spine)[i + 1] && Spine[i] != node {
        }
        forall i | 0 <= i < |Spine|
          ensures Spine[i].next == (if i + 1 < |Spine| then Spine[i + 1] else null)
        {
          assert old(Spine[i + 1].next) == if i + 2 < |old(Spine)| then old(Spine)[i + 2] else null;
        }
      }
      return Some(node.value);
    }
  }

  /** `IterMut`: an exclusive cursor that hands out one node at a time; the
      caller writes the node's value, never its link. */
  class IterMut<T> {
    var current: Option<Node<T>>

    /** The head the cursor was created on, the index of `current` in its
        chain, and the nodes still to be handed out. */
    ghost const list: Node<T>
    ghost var index: nat
    ghost var Remaining: seq<Node<T>>

    ghost predicate Valid()
      reads this, list, list.Repr
    {
      && list.Valid()
      && index <= |list.Spine|
      && (current.None? <==> index == |list.Spine|)
      && (current.Some? ==> current.value == list.Spine[index])
      && Remaining == list.Spine[index..]
    }

    /** `IterMut::new`: a cursor at the head. */
    constructor (head: Node<T>)
      requires head.Valid()
      ensures Valid() && list == head && index == 0
      ensures Remaining == head.Spine
    {
      current := Some(head);
      list := head;
      index := 0;
      Remaining := head.Spine;
    }

    /** `IterMut::next`: hands out the current node (the place its value
        lives) and steps to the successor, or to nothing after the last. */
    method Next() returns (r: Option<Node<T>>)
      requires Valid()
      modifies this
      ensures Valid()
      ensures old(Remaining) == [] ==> r.None? && Remaining == []
      ensures old(Remaining) != [] ==> && r == Some(old(Remaining)[0])
                                       && Remaining == old(Remaining)[1..]
                                       && index == old(index) + 1
    {
      if current.None? {
        return None;
      }
      var node := current.value;
      if node.next == null {
        current := None;
      } else {
        current := Some(node.next);
      }
      index := index + 1;
      Remaining := Remaining[1..];
      return Some(node);
    }
  }
}
