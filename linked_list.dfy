/** The singly linked list used by the pool allocator as a LIFO stack.
    The chain of nodes starting at the head is represented by the sequence
    `contents`: `contents[0]` is the head node's data, and each next node is
    the next element. `mySize` is the separately kept element counter. */
module LinkedLists {

  /** The sequence `s` in reverse order. */
  function Reversed<T>(s: seq<T>): (r: seq<T>)
  {
    if s == [] then [] else Reversed(s[1..]) + [s[0]]
  }

  /** Reversal keeps the length and mirrors every position. */
  lemma {:induction false} ReversedAt<T>(s: seq<T>)
    ensures |Reversed(s)| == |s|
    ensures forall k :: 0 <= k < |s| ==> Reversed(s)[k] == s[|s| - 1 - k]
  {
    if s != [] {
      ReversedAt(s[1..]);
    }
  }

  /** Reversing twice gives back the original sequence. */
  lemma ReversedTwice<T>(s: seq<T>)
    ensures Reversed(Reversed(s)) == s
  {
    ReversedAt(s);
    ReversedAt(Reversed(s));
  }

  class LinkedList<T> {
    /** The data of the nodes, from the head to the last node. */
    var contents: seq<T>
    /** The node counter the list keeps beside its nodes. */
    var mySize: nat

    ghost predicate Valid()
      reads this
    {
      mySize == |contents|
    }

    /** The default constructor: no head node, size zero. */
    constructor ()
      ensures Valid() && contents == []
    {
      contents := [];
      mySize := 0;
    }

    /** The initializer-list constructor: pushes the items to the front
        from the last one to the first, so that the list starts with the
        first item. */
    constructor FromList(items: seq<T>)
      ensures Valid() && contents == items
    {
      contents := [];
      mySize := 0;
      new;
      var i := |items|;
      while i > 0
        invariant 0 <= i <= |items|
        invariant Valid() && contents == items[i..]
      {
        i := i - 1;
        PushFront(items[i]);
      }
    }

    /** Data of the head node; the source asserts that there is one. */
    method Front() returns (x: T)
      requires Valid() && mySize > 0
      ensures x == contents[0]
    {
      x := contents[0];
    }

    /** Reads the head's data, then removes the head. */
    method FrontThenPop() returns (x: T)
      requires Valid() && mySize > 0
      modifies this
      ensures Valid()
      ensures x == old(contents[0]) && contents == old(contents[1..])
    {
      x := Front();
      PopFront();
    }

    /** Copies `x` into the data of a new head node. */
    method PushFront(x: T)
      requires Valid()
      modifies this
      ensures Valid() && contents == [x] + old(contents)
    {
      EmplaceFront(x);
    }

    /** Removes the head node if there is one; an empty list is left alone. */
    method PopFront()
      requires Valid()
      modifies this
      ensures Valid()
      ensures contents == if old(contents) == [] then [] else old(contents[1..])
    {
      if mySize > 0 {
        contents := contents[1..];
        mySize := mySize - 1;
      }
    }

    /** Builds a new head node in front of the current head. */
    method EmplaceFront(x: T)
      requires Valid()
      modifies this
      ensures Valid() && contents == [x] + old(contents)
    {
      contents := [x] + contents;
      mySize := mySize + 1;
    }

    /** Reports the counter as zero; under the invariant, exactly when
        there are no nodes. */
    function Empty(): (b: bool)
      reads this
      requires Valid()
      ensures b <==> contents == []
    {
      mySize == 0
    }

    /** The node counter, which under the invariant is the number of nodes. */
    function Size(): (n: nat)
      reads this
      requires Valid()
      ensures n == |contents|
    {
      mySize
    }

    /** Relinks every node to point at its predecessor and makes the old
        last node the head; the counter is not touched. */
    method Reverse()
      requires Valid()
      modifies this
      ensures Valid() && contents == Reversed(old(contents))
      ensures Size() == old(Size())
    {
      var current := contents;
      var previous: seq<T> := [];
      while current != []
        invariant Reversed(current) + previous == Reversed(old(contents))
        decreases |current|
      {
        var next := current[1..];
        previous := [current[0]] + previous;
        current := next;
      }
      ReversedAt(old(contents));
      contents := previous;
    }

    /** Range-based iteration from `begin()` (the head) following each
        node's next link until `end()`: the data in visiting order. */
    method ForwardValues() returns (visited: seq<T>)
      ensures visited == contents
    {
      visited := [];
      var rest := contents;
      while rest != []
        invariant visited + rest == contents
        decreases |rest|
      {
        visited := visited + [rest[0]];
        rest := rest[1..];
      }
    }
  }

  /** Pushing a value and then taking it back with FrontThenPop returns that
      value and restores the list. */
  method PushThenFrontThenPop<T>(list: LinkedList<T>, x: T) returns (y: T)
    requires list.Valid()
    modifies list
    ensures list.Valid() && y == x && list.contents == old(list.contents)
  {
    list.PushFront(x);
    y := list.FrontThenPop();
  }

  /** A list built from {1, ..., 8} is visited in the order 1, ..., 8. */
  method InitializerListOrder() returns (visited: seq<int>)
    ensures visited == [1, 2, 3, 4, 5, 6, 7, 8]
  {
    var list := new LinkedList<int>.FromList([1, 2, 3, 4, 5, 6, 7, 8]);
    visited := list.ForwardValues();
  }
}
