/** The abstract view of a list: the sequence of its values, head first.
    Each structural operation of the list is described here by its effect on
    that sequence, and the lemmas relate the operations to one another. */
module ListModel {

  /** The contents after `insert(t, k)`: the new value lands at index k + 1,
      directly after the k-th value, and everything behind it moves one place. */
  function InsertedAfter<T>(s: seq<T>, k: nat, t: T): (r: seq<T>)
    requires k < |s|
    ensures |r| == |s| + 1
    ensures r[k + 1] == t
    ensures forall i :: 0 <= i <= k ==> r[i] == s[i]
    ensures forall i :: k + 1 < i < |r| ==> r[i] == s[i - 1]
  {
    s[..k + 1] + [t] + s[k + 1..]
  }

  /** The contents after a successful `remove(k)`: the k-th value is gone and
      everything behind it moves up one place. */
  function RemovedAt<T>(s: seq<T>, k: nat): (r: seq<T>)
    requires k < |s|
    ensures |r| == |s| - 1
    ensures forall i :: 0 <= i < k ==> r[i] == s[i]
    ensures forall i :: k <= i < |r| ==> r[i] == s[i + 1]
  {
    s[..k] + s[k + 1..]
  }

  /** Moving the first value still to come onto the end of those already
      seen keeps the whole sequence the same. */
  lemma ShiftFront<T>(done: seq<T>, rest: seq<T>)
    requires rest != []
    ensures (done + [rest[0]]) + rest[1..] == done + rest
  {
  }

  /** Every value doubled, position by position. */
  function Doubled(s: seq<int>): (r: seq<int>)
    ensures |r| == |s|
    ensures forall i :: 0 <= i < |s| ==> r[i] == 2 * s[i]
  {
    if s == [] then [] else [2 * s[0]] + Doubled(s[1..])
  }

  /** Doubling one more value of a partly doubled sequence extends the
      doubled prefix by one. */
  lemma DoubledGrows(s: seq<int>, k: nat)
    requires k < |s|
    ensures (Doubled(s[..k]) + s[k..])[k := 2 * s[k]] == Doubled(s[..k + 1]) + s[k + 1..]
  {
  }

  /** Removing the value that `insert(t, k)` placed gives the original back. */
  lemma RemoveUndoesInsert<T>(s: seq<T>, k: nat, t: T)
    requires k < |s|
    ensures RemovedAt(InsertedAfter(s, k, t), k + 1) == s
  {
  }

  /** Re-inserting a removed value after its predecessor gives the original back. */
  lemma InsertUndoesRemove<T>(s: seq<T>, k: nat)
    requires 0 < k < |s|
    ensures InsertedAfter(RemovedAt(s, k), k - 1, s[k]) == s
  {
  }

  /** Inserting after the last value is the same as appending. */
  lemma InsertAfterLastIsAppend<T>(s: seq<T>, t: T)
    requires 0 < |s|
    ensures InsertedAfter(s, |s| - 1, t) == s + [t]
  {
  }

  /** Insertion adds exactly one occurrence of the new value and loses nothing. */
  lemma InsertedAfterMultiset<T>(s: seq<T>, k: nat, t: T)
    requires k < |s|
    ensures multiset(InsertedAfter(s, k, t)) == multiset(s) + multiset{t}
  {
    assert s == s[..k + 1] + s[k + 1..];
  }

  /** Removal takes away exactly one occurrence of the removed value. */
  lemma RemovedAtMultiset<T>(s: seq<T>, k: nat)
    requires k < |s|
    ensures multiset(RemovedAt(s, k)) + multiset{s[k]} == multiset(s)
  {
    assert s == s[..k] + [s[k]] + s[k + 1..];
  }

  /** The values present after an insertion are the old ones and the new one. */
  lemma InsertedAfterMembers<T>(s: seq<T>, k: nat, t: T)
    requires k < |s|
    ensures forall x :: x in InsertedAfter(s, k, t) ==> x in s || x == t
    ensures forall x :: x in s ==> x in InsertedAfter(s, k, t)
    ensures t in InsertedAfter(s, k, t)
  {
  }

  /** The values present after a removal are the old ones, less the removed
      one unless it occurs elsewhere too. */
  lemma RemovedAtMembers<T>(s: seq<T>, k: nat)
    requires k < |s|
    ensures forall x :: x in RemovedAt(s, k) ==> x in s
    ensures forall x :: x in s && x != s[k] ==> x in RemovedAt(s, k)
  {
  }
}
