/** Sequence operations behind the queues: the first position of an element,
    removal at a position, and LinkedList<T>.Remove(T) (unlink the first
    node whose value equals the argument). */
module Sequences {

  /** No element occurs twice. */
  ghost predicate NoDuplicates<T>(s: seq<T>)
  {
    forall i, j :: 0 <= i < j < |s| ==> s[i] != s[j]
  }

  /** The index of the first occurrence of x in s. */
  function Position<T(==)>(s: seq<T>, x: T): (i: nat)
    requires x in s
    ensures i < |s| && s[i] == x && x !in s[..i]
  {
    if s[0] == x then 0
    else
      var j := Position(s[1..], x);
      assert s[..j + 1] == [s[0]] + s[1..][..j];
      1 + j
  }

  /** In a sequence without duplicates, an element's first position is its only one. */
  lemma PositionUnique<T>(s: seq<T>, i: nat)
    requires NoDuplicates(s) && i < |s|
    ensures Position(s, s[i]) == i
  {
  }

  /** s without its element at position k. */
  function RemoveIndex<T>(s: seq<T>, k: nat): (r: seq<T>)
    requires k < |s|
    ensures |r| == |s| - 1
    ensures forall i :: 0 <= i < k ==> r[i] == s[i]
    ensures forall i :: k <= i < |r| ==> r[i] == s[i + 1]
  {
    s[..k] + s[k + 1..]
  }

  /** Every element of s other than the one at position k is still in
      RemoveIndex(s, k). */
  lemma RemoveIndexKeepsOthers<T>(s: seq<T>, k: nat)
    requires k < |s|
    ensures forall i :: 0 <= i < |s| && i != k ==> s[i] in RemoveIndex(s, k)
  {
    var r := RemoveIndex(s, k);
    assert forall i :: 0 <= i < |s| && i != k ==> s[i] == r[if i < k then i else i - 1];
  }

  /** LinkedList<T>.Remove(T): removes the first occurrence of x, and leaves
      the list as it is when x does not occur. */
  function RemoveFirst<T(==)>(s: seq<T>, x: T): (r: seq<T>)
    ensures x !in s ==> r == s
    ensures x in s ==> r == RemoveIndex(s, Position(s, x))
  {
    if s == [] then []
    else if s[0] == x then s[1..]
    else
      if x in s then
        assert x in s[1..];
        RemoveIndexCons(s, Position(s, x));
        [s[0]] + RemoveFirst(s[1..], x)
      else [s[0]] + RemoveFirst(s[1..], x)
  }

  /** Removing a position past the head keeps the head in front. */
  lemma RemoveIndexCons<T>(s: seq<T>, k: nat)
    requires 0 < k < |s|
    ensures RemoveIndex(s, k) == [s[0]] + RemoveIndex(s[1..], k - 1)
  {
    assert s[..k] == [s[0]] + s[1..][..k - 1];
    assert s[k + 1..] == s[1..][k..];
  }

  /** Removing an element that was just appended, and occurs nowhere else,
      gives back the sequence before the append. */
  lemma RemoveFirstOfAppended<T>(s: seq<T>, x: T)
    requires x !in s
    ensures RemoveFirst(s + [x], x) == s
  {
    var t := s + [x];
    assert t[..|s|] == s;
    assert Position(t, x) == |s|;
  }

  /** Removing a position from a sequence without duplicates leaves one
      without duplicates, in which the removed element no longer occurs. */
  lemma RemoveIndexKeepsNoDuplicates<T>(s: seq<T>, k: nat)
    requires NoDuplicates(s) && k < |s|
    ensures NoDuplicates(RemoveIndex(s, k))
    ensures s[k] !in RemoveIndex(s, k)
  {
    var r := RemoveIndex(s, k);
    forall i, j | 0 <= i < j < |r| ensures r[i] != r[j] {
      var i' := if i < k then i else i + 1;
      var j' := if j < k then j else j + 1;
      assert r[i] == s[i'] && r[j] == s[j'];
    }
  }
}
