/** Formix.Semaphore's FixedLinkedList<T>: the IList<T> members (indexer,
    IndexOf, Insert, RemoveAt) layered over a LinkedList<T>.

    The list's contents are the sequence `items`, first node first; a node
    is identified by its position, so walking `Next` from `First` advances a
    position from 0. Element equality is Dafny's `==`, standing for
    `Equals`. */
module FixedLinkedLists {
  import opened Faults
  import opened Sequences

  /** s with x placed immediately before the element at position i. */
  function InsertBefore<T>(s: seq<T>, i: nat, x: T): (r: seq<T>)
    requires i <= |s|
    ensures |r| == |s| + 1 && r[i] == x
    ensures forall j :: 0 <= j < i ==> r[j] == s[j]
    ensures forall j :: i < j < |r| ==> r[j] == s[j - 1]
  {
    s[..i] + [x] + s[i..]
  }

  /** RemoveAt undoes Insert at the same index. */
  lemma RemoveAfterInsert<T>(s: seq<T>, i: nat, x: T)
    requires i <= |s|
    ensures RemoveIndex(InsertBefore(s, i, x), i) == s
  {
  }

  /** Insert undoes RemoveAt of the element it put back. */
  lemma InsertAfterRemove<T>(s: seq<T>, i: nat)
    requires i < |s|
    ensures InsertBefore(RemoveIndex(s, i), i, s[i]) == s
  {
  }

  class FixedLinkedList<T(==)> {
    var items: seq<T>

    constructor ()
      ensures items == []
    {
      items := [];
    }

    /** CheckIndex: ArgumentOutOfRangeException below 0 and from Count on. */
    method CheckIndex(index: int) returns (r: Outcome)
      ensures r == Pass <==> 0 <= index < |items|
      ensures r.Fail? ==> r.fault == ArgumentOutOfRange
    {
      if index < 0 {
        return Fail(ArgumentOutOfRange);
      }
      if index >= |items| {
        return Fail(ArgumentOutOfRange);
      }
      return Pass;
    }

    /** GetAt: after the bounds check, walks `index` links from First; the
        node reached is the one at position `index`. Nodes are positions in
        `items` here, so following `Next` is adding one and the walk's
        invariant is that the node is the number of links taken. */
    method GetAt(index: int) returns (r: Result<nat>)
      ensures r.Err? <==> !(0 <= index < |items|)
      ensures r.Err? ==> r.fault == ArgumentOutOfRange
      ensures r.Ok? ==> r.value < |items| && r.value == index
    {
      var check := CheckIndex(index);
      if check.Fail? {
        return Err(check.fault);
      }
      var i := 0;
      var node := 0;
      while i < index
        invariant 0 <= i <= index
        invariant node == i
      {
        i := i + 1;
        node := node + 1;
      }
      return Ok(node);
    }

    /** The indexer's getter: the value of the node at `index`. */
    method Get(index: int) returns (r: Result<T>)
      ensures r.Err? <==> !(0 <= index < |items|)
      ensures r.Err? ==> r.fault == ArgumentOutOfRange
      ensures r.Ok? ==> 0 <= index < |items| && r.value == items[index]
    {
      var node := GetAt(index);
      if node.Err? {
        return Err(node.fault);
      }
      return Ok(items[node.value]);
    }

    /** The indexer's setter: overwrites the value of the node at `index`
        and nothing else. */
    method Set(index: int, value: T) returns (r: Outcome)
      modifies this
      ensures r == Pass <==> 0 <= index < |items|
      ensures r.Fail? ==> r.fault == ArgumentOutOfRange && items == old(items)
      ensures r == Pass ==> 0 <= index < |old(items)| && items == old(items)[index := value]
    {
      var node := GetAt(index);
      if node.Err? {
        return Fail(node.fault);
      }
      items := items[node.value := value];
      return Pass;
    }

    /** IndexOf: walks from First until a node holds an equal value; -1 when
        the walk runs off the end. */
    method IndexOf(item: T) returns (r: int)
      ensures r == -1 <==> item !in items
      ensures item in items ==> r == Position(items, item)
    {
      var i := 0;
      while i < |items| && items[i] != item
        invariant 0 <= i <= |items|
        invariant item !in items[..i]
      {
        assert items[..i + 1] == items[..i] + [items[i]];
        i := i + 1;
      }
      if i == |items| {
        assert items[..i] == items;
        return -1;
      }
      PositionOfFirst(items, item, i);
      return i;
    }

    /** Insert: AddBefore the node at `index`, so `index` must name an
        existing node and Insert at Count fails. */
    method Insert(index: int, item: T) returns (r: Outcome)
      modifies this
      ensures r == Pass <==> 0 <= index < |old(items)|
      ensures r.Fail? ==> r.fault == ArgumentOutOfRange && items == old(items)
      ensures r == Pass ==> items == InsertBefore(old(items), index, item)
    {
      var node := GetAt(index);
      if node.Err? {
        return Fail(node.fault);
      }
      items := InsertBefore(items, node.value, item);
      return Pass;
    }

    /** RemoveAt: unlinks the node at `index`. */
    method RemoveAt(index: int) returns (r: Outcome)
      modifies this
      ensures r == Pass <==> 0 <= index < |old(items)|
      ensures r.Fail? ==> r.fault == ArgumentOutOfRange && items == old(items)
      ensures r == Pass ==> items == RemoveIndex(old(items), index)
    {
      var node := GetAt(index);
      if node.Err? {
        return Fail(node.fault);
      }
      items := RemoveIndex(items, node.value);
      return Pass;
    }
  }

  /** The first index holding x is the one `Position` names. */
  lemma PositionOfFirst<T>(s: seq<T>, x: T, i: nat)
    requires i < |s| && s[i] == x && x !in s[..i]
    ensures Position(s, x) == i
  {
  }
}
