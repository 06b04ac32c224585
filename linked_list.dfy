/** A non-empty singly linked list. A list is its head node; every node owns
    its successor through `next`, so the nodes form a finite chain without
    sharing or cycles. The head carries the ghost view of the whole chain:
    `Spine` (the nodes, head first), `Contents` (their values) and `Repr`
    (the set of nodes). */
module LinkedList {
  import opened ListModel

  datatype Option<T> = None | Some(value: T)

  /** The two recoverable failures of the list operations. */
  datatype OperationsError = ListNotLongEnough | CannotPerformOnHead

  datatype Result<T> = Ok(value: T) | Err(error: OperationsError)

  /** `spine` is a chain: pairwise distinct nodes, each linked to the one
      after it, the last one linked to nothing, holding `values` in order. */
  ghost predicate Chain<T>(spine: seq<Node<T>>, values: seq<T>)
    reads spine
  {
    && |spine| == |values|
    && (forall i, j :: 0 <= i < j < |spine| ==> spine[i] != spine[j])
    && (forall i {:trigger spine[i].next} :: 0 <= i < |spine| ==>
          spine[i].next == if i + 1 < |spine| then spine[i + 1] else null)
    && (forall i :: 0 <= i < |spine| ==> spine[i].value == values[i])
  }

  class Node<T> {
    var value: T
    var next: Node?<T>

    ghost var Spine: seq<Node<T>>
    ghost var Contents: seq<T>
    ghost var Repr: set<Node<T>>

    /** This node heads a chain of at least one node, all of them in `Repr`. */
    ghost predicate Valid()
      reads this, Repr
    {
      && this in Repr
      && 0 < |Spine| && Spine[0] == this
      && (forall i :: 0 <= i < |Spine| ==> Spine[i] in Repr)
      && Chain(Spine, Contents)
    }

    /** `ListNode::new`: a one-node list. */
    constructor (t: T)
      ensures Valid() && value == t && next == null
      ensures Contents == [t] && Spine == [this] && Repr == {this}
    {
      value := t;
      next := null;
      Spine := [this];
      Contents := [t];
      Repr := {this};
    }

    /** The number of values is never zero. */
    lemma NonEmpty()
      requires Valid()
      ensures 1 <= |Contents|
    {
    }

    /** `prepend`: consumes this list and returns a new head whose successor
        is the whole old chain. */
    method Prepend(t: T) returns (head: Node<T>)
      requires Valid()
      ensures fresh(head) && head.Valid()
      ensures head.Contents == [t] + Contents
      ensures head.next == this && head.Repr == {head} + Repr
    {
      head := new Node(t);
      head.next := this;
      head.Spine := [head] + Spine;
      head.Contents := [t] + Contents;
      head.Repr := {head} + Repr;
    }

    /** `pop_front`: consumes this list; fails on a one-node list, otherwise
        the old second node becomes the head of the rest. Only the ghost view
        of the new head is written. */
    method PopFront() returns (r: Result<Node<T>>)
      requires Valid()
      modifies next
      ensures r.Err? <==> |old(Contents)| == 1
      ensures r.Err? ==> r.error == ListNotLongEnough
      ensures r.Ok? ==> && r.value == old(next) && r.value.Valid()
                        && r.value.Contents == old(Contents)[1..]
                        && r.value.Repr == old(Repr) - {this}
    {
      if next == null {
        return Err(ListNotLongEnough);
      }
      var rest := next;
      rest.Spine := Spine[1..];
      rest.Contents := Contents[1..];
      rest.Repr := Repr - {this};
      return Ok(rest);
    }

    /** `append`: walks to the last node and links a new node behind it. */
    method Append(t: T)
      requires Valid()
      modifies Repr
      ensures Valid() && fresh(Repr - old(Repr))
      ensures Contents == old(Contents) + [t]
      ensures Spine[..|old(Spine)|] == old(Spine)
      ensures Repr == old(Repr) + {Spine[|Spine| - 1]}
    {
      var current := this;
      ghost var i := 0;
      // walk while there is a successor; the source's loop attaches on the first `None`
      while current.next != null
        invariant 0 <= i < |Spine| && current == Spine[i]
        decreases |Spine| - i
      {
        current := current.next;
        i := i + 1;
      }
      ghost var spine := Spine;
      var node := new Node(t);
      current.next := node;
      Spine := spine + [node];
      Contents := Contents + [t];
      Repr := Repr + {node};
      assert Repr - old(Repr) == {node};
      assert Chain(Spine, Contents) by {
        forall j | 0 <= j < |Spine|
          ensures Spine[j].next == (if j + 1 < |Spine| then Spine[j + 1] else null)
        {
          if j < i {
            assert old(spine[j].next) == spine[j + 1];
          }
        }
      }
    }

    /** The splice of `insert` once its walk has stopped here: a new node
        holding `t` takes over this node's successor and becomes its successor. */
    method LinkNewAfter(t: T) returns (node: Node<T>)
      modifies this`next
      ensures fresh(node) && node.value == t
      ensures next == node && node.next == old(next)
    {
      if next == null {
        node := new Node(t);
        next := node;
      } else {
        var following := next;
        next := null;
        node := new Node(t);
        node.next := following;
        next := node;
      }
    }

    /** A write through the place `iter_mut` hands out for the k-th node:
        only that node's value changes. */
    method SetValue(node: Node<T>, ghost k: nat, t: T)
      requires Valid() && k < |Spine| && node == Spine[k]
      modifies this, node
      ensures Valid() && Spine == old(Spine) && Repr == old(Repr)
      ensures Contents == old(Contents)[k := t]
    {
      node.value := t;
      Contents := Contents[k := t];
    }

    /** `insert(t, k)`: walks k links from the head and splices a new node in
        directly after the node reached. Fails, changing nothing, when the
        chain has no k-th link to follow. */
    method Insert(t: T, k: nat) returns (r: Result<()>)
      requires Valid()
      modifies Repr
      ensures Valid() && fresh(Repr - old(Repr))
      ensures r.Ok? <==> k < |old(Contents)|
      ensures r.Ok? ==> Contents == InsertedAfter(old(Contents), k, t)
      ensures r.Err? ==> r.error == ListNotLongEnough && Repr == old(Repr) && unchanged(Repr)
    {
      var counter := 0;
      var current := this;
      while counter < k
        invariant counter <= k && counter < |Spine| && current == Spine[counter]
      {
        if current.next != null {
          counter := counter + 1;
          current := current.next;
        } else {
          return Err(ListNotLongEnough);
        }
      }
      SpliceAfter(current, k, t);
      return Ok(());
    }

    /** The splice of `insert` once its walk has reached `current`, the k-th
        node: a new node holding `t` is linked in behind it. */
    method SpliceAfter(current: Node<T>, k: nat, t: T)
      requires Valid() && k < |Spine| && current == Spine[k]
      modifies this, current
      ensures Valid() && fresh(Repr - old(Repr))
      ensures Contents == InsertedAfter(old(Contents), k, t)
    {
      ghost var spine, values := Spine, Contents;
      var node := current.LinkNewAfter(t);
      Spine := InsertedAfter(spine, k, node);
      Contents := InsertedAfter(values, k, t);
      Repr := Repr + {node};
      assert Repr - old(Repr) == {node};
      assert Chain(Spine, Contents) by {
        forall i | 0 <= i < |Spine|
          ensures Spine[i].next == (if i + 1 < |Spine| then Spine[i + 1] else null)
        {
          if i < k {
            assert old(spine[i].next) == spine[i + 1];
          } else if k + 1 < i {
            assert old(spine[i - 1].next) == if i < |spine| then spine[i] else null;
          }
        }
        forall i, j | 0 <= i < j < |Spine| ensures Spine[i] != Spine[j] {
          var i', j' := if i <= k then i else i - 1, if j <= k then j else j - 1;
          if i != k + 1 && j != k + 1 {
            assert Spine[i] == spine[i'] && Spine[j] == spine[j'];
          }
        }
      }
      InsertedAfterMembers(spine, k, node);
    }

    /** `remove(k)`: the head cannot be removed in place; otherwise walks to
        the node before index k and unlinks its successor, returning that
        successor's value. Fails, changing nothing, when there is no node at
        index k. */
    method Remove(k: nat) returns (r: Result<T>)
      requires Valid()
      modifies Repr
      ensures Valid() && Repr <= old(Repr)
      ensures k == 0 ==> r == Err(CannotPerformOnHead)
      ensures r.Ok? <==> 0 < k < |old(Contents)|
      ensures 0 < k && |old(Contents)| <= k ==> r == Err(ListNotLongEnough)
      ensures r.Ok? ==> && r.value == old(Contents)[k]
                        && Contents == RemovedAt(old(Contents), k)
                        && Repr == old(Repr) - {old(Spine)[k]}
      ensures r.Err? ==> Repr == old(Repr) && unchanged(Repr)
    {
      if k == 0 {
        return Err(CannotPerformOnHead);
      }
      var counter := 0;
      var current := this;
      while counter < k - 1
        invariant counter <= k - 1 && counter < |Spine| && current == Spine[counter]
      {
        if current.next != null {
          counter := counter + 1;
          current := current.next;
        } else {
          return Err(ListNotLongEnough);
        }
      }
      if current.next != null {
        var t := UnlinkAfter(current, k - 1);
        return Ok(t);
      } else {
        return Err(ListNotLongEnough);
      }
    }

    /** The unlinking of `remove` once its walk has reached `current`, the
        node before index k + 1: its successor is taken out of the chain and
        its value returned. */
    method UnlinkAfter(current: Node<T>, k: nat) returns (t: T)
      requires Valid() && k + 1 < |Spine| && current == Spine[k]
      modifies this, current, Spine[k + 1]
      ensures Valid() && Repr == old(Repr) - {old(Spine[k + 1])}
      ensures t == old(Contents)[k + 1]
      ensures Contents == RemovedAt(old(Contents), k + 1)
    {
      ghost var spine, values := Spine, Contents;
      var removed := current.next;
      current.next := null;
      if removed.next != null {
        current.next := removed.next;
        removed.next := null;
      }
      Spine := RemovedAt(spine, k + 1);
      Contents := RemovedAt(values, k + 1);
      Repr := Repr - {removed};
      assert Chain(Spine, Contents) by {
        forall i | 0 <= i < |Spine|
          ensures Spine[i].next == (if i + 1 < |Spine| then Spine[i + 1] else null)
        {
          if i < k {
            assert old(spine[i].next) == spine[i + 1];
          } else if k < i {
            assert old(spine[i + 1].next) == if i + 2 < |spine| then spine[i + 2] else null;
          }
        }
      }
      t := removed.value;
    }
  }

  /** `pop_front` undoes `prepend`: it hands back the list that was prepended
      to, with its contents as they were. */
  method PopFrontAfterPrepend<T>(head: Node<T>, t: T) returns (back: Node<T>)
    requires head.Valid()
    modifies head
    ensures back == head && back.Valid()
    ensures back.Contents == old(head.Contents) && back.Repr == old(head.Repr)
  {
    var front := head.Prepend(t);
    var r := front.PopFront();
    back := r.value;
  }

  /** `from_iter`: the first value becomes the head, every later one is
      appended. An empty input has no list to return. */
  method FromIter<T>(s: seq<T>) returns (head: Node<T>)
    requires 0 < |s|
    ensures head.Valid() && head.Contents == s && fresh(head.Repr)
  {
    var initialHead: Option<Node<T>> := None;
    for i := 0 to |s|
      invariant initialHead.None? <==> i == 0
      invariant initialHead.Some? ==> && initialHead.value.Valid()
                                      && initialHead.value.Contents == s[..i]
                                      && fresh(initialHead.value.Repr)
    {
      if initialHead.None? {
        var node := new Node(s[i]);
        initialHead := Some(node);
      } else {
        initialHead.value.Append(s[i]);
      }
    }
    head := initialHead.value;
  }
}
