/**
 * The integer list that pipeserve uses as its registry of connected clients
 * (list_t: a `head` value and a `tail` pointer, NULL for the empty list).
 * A list is modelled by the sequence of its heads, first node first.
 */
module IntList {

  /** list_add: a fresh node holding `value` in front of the unchanged list. */
  function ListAdd(list: seq<int>, value: int): seq<int>
  {
    [value] + list
  }

  /** Offset of the first node whose head is `value`. */
  function FirstIndex(s: seq<int>, value: int): (k: nat)
    requires value in s
    ensures k < |s| && s[k] == value && value !in s[..k]
  {
    if s[0] == value then 0
    else
      var k := FirstIndex(s[1..], value);
      assert s[1..][..k] == s[1..k + 1];
      k + 1
  }

  /**
   * Reference definition of list deletion: drop the first node carrying
   * `value` and keep everything else in order.
   */
  function RemoveFirst(s: seq<int>, value: int): seq<int>
  {
    if s == [] then []
    else if s[0] == value then s[1..]
    else [s[0]] + RemoveFirst(s[1..], value)
  }

  /**
   * list_del: walks a cursor `prev` from a dummy head whose tail is the list;
   * the first node whose head equals `value` is unlinked and the walk stops.
   * The dummy head is what lets the first node be removed: the result is the
   * dummy head's tail.
   */
  method ListDel(list: seq<int>, value: int) returns (r: seq<int>)
    ensures value !in list ==> r == list
    ensures value in list ==>
              var k := FirstIndex(list, value); r == list[..k] + list[k + 1..]
    ensures r == RemoveFirst(list, value)
  {
    r := list;
    var i := 0;   // prev->tail is the node at offset i
    while i < |list|
      invariant 0 <= i <= |list|
      invariant value !in list[..i]
      invariant r == list
    {
      if list[i] == value {
        r := list[..i] + list[i + 1..];
        break;
      }
      i := i + 1;
    }
    if value in list {
      RemoveFirstSplice(list, value);
      assert list[..i + 1] == list[..i] + [list[i]];
    } else {
      RemoveFirstAbsent(list, value);
    }
  }

  /** Deleting a value that is not in the list gives back the same list. */
  lemma {:induction false} RemoveFirstAbsent(s: seq<int>, value: int)
    requires value !in s
    ensures RemoveFirst(s, value) == s
  {
    if s != [] {
      RemoveFirstAbsent(s[1..], value);
    }
  }

  /** Deletion splices out exactly the first occurrence. */
  lemma {:induction false} RemoveFirstSplice(s: seq<int>, value: int)
    requires value in s
    ensures var k := FirstIndex(s, value); RemoveFirst(s, value) == s[..k] + s[k + 1..]
  {
    if s[0] != value {
      RemoveFirstSplice(s[1..], value);
      var k := FirstIndex(s[1..], value);
      assert s[1..][..k] == s[1..k + 1];
      assert s[1..][k + 1..] == s[k + 2..];
    }
  }

  /** The length drops by exactly one if and only if the value was present. */
  lemma {:induction false} RemoveFirstLength(s: seq<int>, value: int)
    ensures |RemoveFirst(s, value)| == |s| - 1 <==> value in s
    ensures value !in s ==> |RemoveFirst(s, value)| == |s|
  {
    if value in s {
      RemoveFirstSplice(s, value);
    } else {
      RemoveFirstAbsent(s, value);
    }
  }

  /**
   * The remaining nodes keep their relative order: element j of the result is
   * element j of the list before the removed node and element j + 1 after it.
   */
  lemma {:induction false} RemoveFirstKeepsOrder(s: seq<int>, value: int)
    requires value in s
    ensures var k := FirstIndex(s, value);
            && |RemoveFirst(s, value)| == |s| - 1
            && (forall j :: 0 <= j < k ==> RemoveFirst(s, value)[j] == s[j])
            && (forall j :: k <= j < |s| - 1 ==> RemoveFirst(s, value)[j] == s[j + 1])
  {
    RemoveFirstSplice(s, value);
  }

  /** Exactly one copy of the value leaves the list; nothing else does. */
  lemma {:induction false} RemoveFirstMultiset(s: seq<int>, value: int)
    ensures multiset(RemoveFirst(s, value)) == multiset(s) - multiset{value}
  {
    if s != [] {
      assert s == [s[0]] + s[1..];
      if s[0] != value {
        RemoveFirstMultiset(s[1..], value);
      }
    }
  }

  /** A node just added is the one list_del removes: the head goes first. */
  lemma {:induction false} DelUndoesAdd(list: seq<int>, value: int)
    ensures RemoveFirst(ListAdd(list, value), value) == list
    ensures |ListAdd(list, value)| == |list| + 1
  {
  }
}
