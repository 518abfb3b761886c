/**
 * The list operations java.util.LinkedList provides to ComicPage and
 * ComicBook: add at an index, remove at an index, and the move that
 * LayerPanel composes from the two.
 */
module Lists {

  /** `list.add(i, x)`: x lands at i and later elements shift up by one. */
  function Inserted<T>(s: seq<T>, i: int, x: T): (r: seq<T>)
    requires 0 <= i <= |s|
    ensures |r| == |s| + 1 && r[i] == x
    ensures forall k :: 0 <= k < i ==> r[k] == s[k]
    ensures forall k :: i < k < |r| ==> r[k] == s[k - 1]
  {
    s[..i] + [x] + s[i..]
  }

  /** `list.remove(i)`: the element at i leaves and later elements shift down by one. */
  function Removed<T>(s: seq<T>, i: int): (r: seq<T>)
    requires 0 <= i < |s|
    ensures |r| == |s| - 1
    ensures forall k :: 0 <= k < i ==> r[k] == s[k]
    ensures forall k :: i <= k < |r| ==> r[k] == s[k + 1]
  {
    s[..i] + s[i + 1..]
  }

  /** Removing what was just inserted gives the list back. */
  lemma RemovedInserted<T>(s: seq<T>, i: int, x: T)
    requires 0 <= i <= |s|
    ensures Removed(Inserted(s, i, x), i) == s
  {
    var r := Removed(Inserted(s, i, x), i);
    assert forall k :: 0 <= k < |s| ==> r[k] == s[k];
  }

  /** Putting a removed element back where it was gives the list back. */
  lemma InsertedRemoved<T>(s: seq<T>, i: int)
    requires 0 <= i < |s|
    ensures Inserted(Removed(s, i), i, s[i]) == s
  {
    var r := Inserted(Removed(s, i), i, s[i]);
    assert forall k :: 0 <= k < |s| ==> r[k] == s[k];
  }

  /** Insertion adds exactly one occurrence of the element. */
  lemma InsertedMultiset<T>(s: seq<T>, i: int, x: T)
    requires 0 <= i <= |s|
    ensures multiset(Inserted(s, i, x)) == multiset(s) + multiset{x}
  {
    assert s == s[..i] + s[i..];
    assert Inserted(s, i, x) == s[..i] + [x] + s[i..];
  }

  /** Removal takes away exactly one occurrence of the element removed. */
  lemma RemovedMultiset<T>(s: seq<T>, i: int)
    requires 0 <= i < |s|
    ensures multiset(Removed(s, i)) == multiset(s) - multiset{s[i]}
  {
    assert s == s[..i] + [s[i]] + s[i + 1..];
    assert Removed(s, i) == s[..i] + s[i + 1..];
  }

  /** Remove the element at `from`, then insert it at `to` of the shorter
      list: it ends at `to`, nothing is lost or duplicated, and the other
      elements keep their order. */
  function Moved<T>(s: seq<T>, from: int, to: int): (r: seq<T>)
    requires 0 <= from < |s| && 0 <= to < |s|
    ensures |r| == |s| && r[to] == s[from]
    ensures multiset(r) == multiset(s)
    ensures Removed(r, to) == Removed(s, from)
  {
    RemovedMultiset(s, from);
    InsertedMultiset(Removed(s, from), to, s[from]);
    RemovedInserted(Removed(s, from), to, s[from]);
    Inserted(Removed(s, from), to, s[from])
  }

  /** Moving an element back to where it came from undoes the move. */
  lemma MovedBack<T>(s: seq<T>, from: int, to: int)
    requires 0 <= from < |s| && 0 <= to < |s|
    ensures Moved(Moved(s, from, to), to, from) == s
  {
    InsertedRemoved(s, from);
  }

  /** Every element of a moved list was in the list before. */
  lemma MovedElements<T>(s: seq<T>, from: int, to: int)
    requires 0 <= from < |s| && 0 <= to < |s|
    ensures forall x :: x in Moved(s, from, to) <==> x in s
  {
    var m := Moved(s, from, to);
    assert forall x :: x in m <==> x in multiset(m);
    assert forall x :: x in s <==> x in multiset(s);
  }
}
