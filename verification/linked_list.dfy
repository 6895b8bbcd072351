/** The generic doubly-linked list every other component stores its data in.
    The chain of nodes is modelled by the sequence `nodes` (front to back);
    the list header's own fields `head`, `tail` and `length` are kept beside it,
    because the C code maintains them separately from the chain, and `Valid`
    states the agreement every operation must preserve.

    The three capabilities a C list carries (print, delete, compare) are passed
    to the operations that use them. */
module LinkedList {
  import opened Common

  datatype List<T> = List(nodes: seq<T>, head: Option<T>, tail: Option<T>, length: int)

  /** The list header agrees with the node chain: `length` counts the nodes,
      and `head`/`tail` are NULL exactly when the chain is empty and otherwise
      hold the first and last element. */
  ghost predicate Valid<T>(l: List<T>)
  {
    && l.length == |l.nodes|
    && (l.head.None? <==> |l.nodes| == 0)
    && (l.tail.None? <==> |l.nodes| == 0)
    && (|l.nodes| > 0 ==> l.head == Some(l.nodes[0]) && l.tail == Some(l.nodes[|l.nodes| - 1]))
  }

  /** initializeList: a fresh list has no nodes, NULL ends and length 0. */
  function InitializeList<T>(): (l: List<T>)
    ensures Valid(l)
    ensures |l.nodes| == 0 && l.length == 0 && l.head.None? && l.tail.None?
  {
    List([], None, None, 0)
  }

  /** insertFront: the new element becomes the first one, the old order follows. */
  function InsertFront<T>(l: List<T>, x: T): (r: List<T>)
    requires Valid(l)
    ensures Valid(r)
    ensures r.nodes == [x] + l.nodes
    ensures r.length == l.length + 1
  {
    if l.head.None? then List([x], Some(x), Some(x), l.length + 1)
    else List([x] + l.nodes, Some(x), l.tail, l.length + 1)
  }

  /** insertBack: the new element becomes the last one, the old order precedes it. */
  function InsertBack<T>(l: List<T>, x: T): (r: List<T>)
    requires Valid(l)
    ensures Valid(r)
    ensures r.nodes == l.nodes + [x]
    ensures r.length == l.length + 1
  {
    if l.head.None? then List([x], Some(x), Some(x), l.length + 1)
    else List(l.nodes + [x], l.head, Some(x), l.length + 1)
  }

  /** getFromFront: the first element, or NULL for an empty list. */
  function GetFromFront<T>(l: List<T>): (r: Option<T>)
    requires Valid(l)
    ensures r.None? <==> |l.nodes| == 0
    ensures r.Some? ==> r.value == l.nodes[0]
  {
    l.head
  }

  /** getFromBack: the last element, or NULL for an empty list. */
  function GetFromBack<T>(l: List<T>): (r: Option<T>)
    requires Valid(l)
    ensures r.None? <==> |l.nodes| == 0
    ensures r.Some? ==> r.value == l.nodes[|l.nodes| - 1]
  {
    l.tail
  }

  /** getLength: the stored length is the number of nodes. */
  function GetLength<T>(l: List<T>): (r: int)
    requires Valid(l)
    ensures r == |l.nodes|
  {
    l.length
  }

  // ---------------------------------------------------------------------
  // Iteration

  /** A forward iterator: the part of the chain not yet visited. */
  datatype Iterator<T> = Iterator(rest: seq<T>)

  function CreateIterator<T>(l: List<T>): (it: Iterator<T>)
    ensures it.rest == l.nodes
  {
    Iterator(l.nodes)
  }

  /** nextElement: yields the current element and advances, or NULL at the end. */
  function NextElement<T>(it: Iterator<T>): (r: (Option<T>, Iterator<T>))
    ensures |it.rest| == 0 ==> r.0.None? && r.1 == it
    ensures |it.rest| > 0 ==> r.0 == Some(it.rest[0]) && r.1.rest == it.rest[1..]
  {
    if |it.rest| == 0 then (None, it) else (Some(it.rest[0]), Iterator(it.rest[1..]))
  }

  /** The iterator after `n` calls of `nextElement`. */
  function Advance<T>(it: Iterator<T>, n: nat): Iterator<T>
    decreases n
  {
    if n == 0 then it else Advance(NextElement(it).1, n - 1)
  }

  /** Iterating a fresh iterator visits the list front to back: the (k+1)-th call
      of `nextElement` yields the k-th node, and every call after the last node yields NULL. */
  lemma {:induction false} IterationVisitsInOrder<T>(l: List<T>, k: nat)
    ensures k < |l.nodes| ==> NextElement(Advance(CreateIterator(l), k)).0 == Some(l.nodes[k])
    ensures k >= |l.nodes| ==> NextElement(Advance(CreateIterator(l), k)).0.None?
  {
    AdvanceDrops(CreateIterator(l), k);
  }

  lemma {:induction false} AdvanceDrops<T>(it: Iterator<T>, n: nat)
    ensures n <= |it.rest| ==> Advance(it, n).rest == it.rest[n..]
    ensures n > |it.rest| ==> Advance(it, n).rest == []
    decreases n
  {
    if n > 0 {
      AdvanceDrops(NextElement(it).1, n - 1);
      if 0 < n <= |it.rest| {
        assert it.rest[1..][n - 1..] == it.rest[n..];
      }
    }
  }

  // ---------------------------------------------------------------------
  // Searching

  /** The index of the first element satisfying `p`, if any. */
  function FirstIndex<T>(s: seq<T>, p: T -> bool): (r: Option<nat>)
    ensures r.Some? ==> r.value < |s| && p(s[r.value]) && forall i :: 0 <= i < r.value ==> !p(s[i])
    ensures r.None? ==> forall i :: 0 <= i < |s| ==> !p(s[i])
  {
    if |s| == 0 then None
    else if p(s[0]) then Some(0)
    else match FirstIndex(s[1..], p)
      case None => None
      case Some(k) => Some(k + 1)
  }

  /** findElement: the first element, in iteration order, that `matches` the search record,
      or NULL when no element does. */
  method FindElement<T, S>(l: List<T>, matches: (T, S) -> bool, search: S) returns (r: Option<T>)
    ensures r.None? <==> forall i :: 0 <= i < |l.nodes| ==> !matches(l.nodes[i], search)
    ensures r.Some? ==> exists k :: 0 <= k < |l.nodes| && r.value == l.nodes[k]
                                    && matches(l.nodes[k], search)
                                    && forall i :: 0 <= i < k ==> !matches(l.nodes[i], search)
  {
    var it := CreateIterator(l);
    var visited := 0;
    while |it.rest| > 0
      invariant 0 <= visited <= |l.nodes|
      invariant it.rest == l.nodes[visited..]
      invariant forall i :: 0 <= i < visited ==> !matches(l.nodes[i], search)
      decreases |it.rest|
    {
      var step := NextElement(it);
      var data := step.0.value;
      if matches(data, search) {
        return Some(data);
      }
      it := step.1;
      visited := visited + 1;
    }
    return None;
  }

  // ---------------------------------------------------------------------
  // Sorted insertion

  /** `s` is ordered by `compare`: no element compares greater than a later one. */
  ghost predicate Sorted<T>(s: seq<T>, compare: (T, T) -> int)
  {
    forall i, j :: 0 <= i < j < |s| ==> compare(s[i], s[j]) <= 0
  }

  /** A positive comparison one way is a negative comparison the other way. */
  predicate SignFlips<T>(compare: (T, T) -> int, a: T, b: T)
  {
    compare(a, b) > 0 <==> compare(b, a) < 0
  }

  /** `<= 0` is transitive through `b`. */
  predicate ChainsThrough<T>(compare: (T, T) -> int, a: T, b: T, c: T)
  {
    compare(a, b) <= 0 && compare(b, c) <= 0 ==> compare(a, c) <= 0
  }

  /** `compare` behaves as a total preorder on the elements of `s`. */
  ghost predicate PreorderOn<T>(s: seq<T>, compare: (T, T) -> int)
  {
    && (forall a, b :: a in s && b in s ==> SignFlips(compare, a, b))
    && (forall a, b, c :: a in s && b in s && c in s ==> ChainsThrough(compare, a, b, c))
  }

  /** Reference definition of sorted insertion: `x` goes immediately before the
      first element that compares greater than it, or at the back if none does. */
  function SortedInsert<T>(s: seq<T>, x: T, compare: (T, T) -> int): seq<T>
  {
    if |s| == 0 then [x]
    else if compare(s[0], x) > 0 then [x] + s
    else [s[0]] + SortedInsert(s[1..], x, compare)
  }

  /** The reference insertion splits the list at the first element greater than `x`:
      everything before it compares `<= 0` with `x`. */
  lemma {:induction false} SortedInsertSplits<T>(s: seq<T>, x: T, compare: (T, T) -> int, k: nat)
    requires k <= |s|
    requires forall i :: 0 <= i < k ==> compare(s[i], x) <= 0
    requires k < |s| ==> compare(s[k], x) > 0
    ensures SortedInsert(s, x, compare) == s[..k] + [x] + s[k..]
  {
    if k == 0 {
      if |s| == 0 {
      } else {
        assert s[..0] + [x] + s[0..] == [x] + s;
      }
    } else {
      assert compare(s[0], x) <= 0;
      SortedInsertSplits(s[1..], x, compare, k - 1);
      assert [s[0]] + (s[1..][..k - 1] + [x] + s[1..][k - 1..]) == s[..k] + [x] + s[k..];
    }
  }

  /** insertSorted: walks the list until an element compares greater than the new one,
      inserting before it; if none does, falls back to insertBack. */
  method InsertSorted<T>(l: List<T>, x: T, compare: (T, T) -> int) returns (r: List<T>)
    requires Valid(l)
    ensures Valid(r)
    ensures r.nodes == SortedInsert(l.nodes, x, compare)
    ensures r.length == l.length + 1
  {
    var k := 0;
    while k < |l.nodes|
      invariant 0 <= k <= |l.nodes|
      invariant forall i :: 0 <= i < k ==> compare(l.nodes[i], x) <= 0
    {
      if compare(l.nodes[k], x) > 0 {
        SortedInsertSplits(l.nodes, x, compare, k);
        var nodes := l.nodes[..k] + [x] + l.nodes[k..];
        // before the first node the new node becomes the head; otherwise head is kept
        var head := if k == 0 then Some(x) else l.head;
        return List(nodes, head, l.tail, l.length + 1);
      }
      k := k + 1;
    }
    SortedInsertSplits(l.nodes, x, compare, k);
    assert l.nodes[..k] + [x] + l.nodes[k..] == l.nodes + [x];
    r := InsertBack(l, x);
  }

  /** Sorted insertion adds exactly the new element. */
  lemma {:induction false} SortedInsertAddsOne<T>(s: seq<T>, x: T, compare: (T, T) -> int)
    ensures multiset(SortedInsert(s, x, compare)) == multiset(s) + multiset{x}
  {
    if |s| > 0 && compare(s[0], x) <= 0 {
      SortedInsertAddsOne(s[1..], x, compare);
      assert s == [s[0]] + s[1..];
    }
  }

  /** Every element of a sorted insertion is the new element or an old one. */
  lemma {:induction false} SortedInsertMembers<T>(s: seq<T>, x: T, compare: (T, T) -> int)
    ensures forall y :: y in SortedInsert(s, x, compare) ==> y == x || y in s
  {
    if |s| > 0 && compare(s[0], x) <= 0 {
      SortedInsertMembers(s[1..], x, compare);
      assert forall y :: y in s[1..] ==> y in s;
    }
  }

  lemma PreorderOnTail<T>(s: seq<T>, x: T, compare: (T, T) -> int)
    requires |s| > 0
    requires PreorderOn(s + [x], compare)
    ensures PreorderOn(s[1..] + [x], compare)
  {
    assert forall a :: a in s[1..] + [x] ==> a in s + [x];
  }

  /** A sorted sequence stays sorted under a new first element that is `<= 0` against all. */
  lemma ConsSorted<T>(h: T, rest: seq<T>, compare: (T, T) -> int)
    requires Sorted(rest, compare)
    requires forall j :: 0 <= j < |rest| ==> compare(h, rest[j]) <= 0
    ensures Sorted([h] + rest, compare)
  {
    var r := [h] + rest;
    forall i, j | 0 <= i < j < |r|
      ensures compare(r[i], r[j]) <= 0
    {
      if i > 0 {
        assert r[i] == rest[i - 1] && r[j] == rest[j - 1];
      } else {
        assert r[j] == rest[j - 1];
      }
    }
  }

  /** Inserting into a list that is sorted under a total preorder keeps it sorted. */
  lemma {:induction false} SortedInsertKeepsSorted<T>(s: seq<T>, x: T, compare: (T, T) -> int)
    requires Sorted(s, compare)
    requires PreorderOn(s + [x], compare)
    ensures Sorted(SortedInsert(s, x, compare), compare)
  {
    if |s| == 0 {
    } else if compare(s[0], x) > 0 {
      assert s[0] in s + [x] && x in s + [x];
      assert SignFlips(compare, s[0], x);
      forall j | 0 <= j < |s|
        ensures compare(x, s[j]) <= 0
      {
        assert s[j] in s + [x];
        if j > 0 {
          assert ChainsThrough(compare, x, s[0], s[j]);
        }
      }
      ConsSorted(x, s, compare);
    } else {
      var rest := SortedInsert(s[1..], x, compare);
      PreorderOnTail(s, x, compare);
      assert Sorted(s[1..], compare) by {
        forall i, j | 0 <= i < j < |s[1..]|
          ensures compare(s[1..][i], s[1..][j]) <= 0
        {
          assert s[1..][i] == s[i + 1] && s[1..][j] == s[j + 1];
        }
      }
      SortedInsertKeepsSorted(s[1..], x, compare);
      SortedInsertMembers(s[1..], x, compare);
      forall j | 0 <= j < |rest|
        ensures compare(s[0], rest[j]) <= 0
      {
        assert rest[j] in rest;
        if rest[j] != x {
          var m :| 0 <= m < |s[1..]| && s[1..][m] == rest[j];
          assert s[m + 1] == rest[j];
        }
      }
      ConsSorted(s[0], rest, compare);
    }
  }

  // ---------------------------------------------------------------------
  // Deletion

  /** deleteDataFromList: removes and returns the first element that compares equal (0)
      to the argument; a NULL argument or no match returns NULL and leaves the list alone. */
  method DeleteDataFromList<T>(l: List<T>, toBeDeleted: Option<T>, compare: (T, T) -> int)
    returns (r: List<T>, removed: Option<T>)
    requires Valid(l)
    ensures Valid(r)
    ensures toBeDeleted.None? ==> removed.None? && r.nodes == l.nodes
    ensures toBeDeleted.Some? ==>
      match FirstIndex(l.nodes, (y: T) => compare(y, toBeDeleted.value) == 0)
      case None => removed.None? && r.nodes == l.nodes && r.length == l.length
      case Some(k) => removed == Some(l.nodes[k]) && r.nodes == l.nodes[..k] + l.nodes[k + 1..]
                      && r.length == l.length - 1
  {
    if toBeDeleted.None? {
      return l, None;
    }
    var target := toBeDeleted.value;
    ghost var p := (y: T) => compare(y, target) == 0;
    var k := 0;
    while k < |l.nodes|
      invariant 0 <= k <= |l.nodes|
      invariant forall i :: 0 <= i < k ==> !p(l.nodes[i])
    {
      if compare(l.nodes[k], target) == 0 {
        FirstIndexAt(l.nodes, p, k);
        var nodes := l.nodes[..k] + l.nodes[k + 1..];
        // unlink: a missing next node moves the tail, a missing previous node moves the head
        var tail := if k + 1 == |l.nodes| then (if k == 0 then None else Some(l.nodes[k - 1])) else l.tail;
        var head := if k == 0 then (if k + 1 == |l.nodes| then None else Some(l.nodes[1])) else l.head;
        return List(nodes, head, tail, l.length - 1), Some(l.nodes[k]);
      }
      k := k + 1;
    }
    return l, None;
  }

  lemma FirstIndexAt<T>(s: seq<T>, p: T -> bool, k: nat)
    requires k < |s| && p(s[k])
    requires forall i :: 0 <= i < k ==> !p(s[i])
    ensures FirstIndex(s, p) == Some(k)
  {
    var r := FirstIndex(s, p);
    assert r.Some?;
  }

  // ---------------------------------------------------------------------
  // Clearing and printing

  /** clearList: `deleteData` is applied exactly once per element, front to back
      (returned as the trace `deleted`), and the list is reset to the empty state. */
  method ClearList<T>(l: List<T>) returns (r: List<T>, deleted: seq<T>)
    requires Valid(l)
    ensures Valid(r) && |r.nodes| == 0 && r.length == 0 && r.head.None? && r.tail.None?
    ensures deleted == l.nodes
  {
    deleted := [];
    var i := 0;
    while i < |l.nodes|
      invariant 0 <= i <= |l.nodes|
      invariant deleted == l.nodes[..i]
    {
      deleted := deleted + [l.nodes[i]];
      i := i + 1;
    }
    assert l.nodes[..i] == l.nodes;
    r := List([], None, None, 0);
  }

  /** The in-order concatenation of `printData` over `s`. */
  function Concat<T>(s: seq<T>, printData: T -> string): string
  {
    if |s| == 0 then "" else printData(s[0]) + Concat(s[1..], printData)
  }

  lemma {:induction false} ConcatSnoc<T>(s: seq<T>, x: T, printData: T -> string)
    ensures Concat(s + [x], printData) == Concat(s, printData) + printData(x)
  {
    if |s| == 0 {
      assert s + [x] == [x];
    } else {
      assert (s + [x])[1..] == s[1..] + [x];
      ConcatSnoc(s[1..], x, printData);
    }
  }

  /** toString: the sentinel "empty" for a list of length 0, otherwise the
      in-order concatenation of `printData` over all elements. */
  method ToString<T>(l: List<T>, printData: T -> string) returns (str: string)
    requires Valid(l)
    ensures |l.nodes| == 0 ==> str == "empty"
    ensures |l.nodes| > 0 ==> str == Concat(l.nodes, printData)
  {
    if l.length == 0 {
      return "empty";
    }
    str := "";
    var i := 0;
    while i < |l.nodes|
      invariant 0 <= i <= |l.nodes|
      invariant str == Concat(l.nodes[..i], printData)
    {
      ConcatSnoc(l.nodes[..i], l.nodes[i], printData);
      assert l.nodes[..i + 1] == l.nodes[..i] + [l.nodes[i]];
      str := str + printData(l.nodes[i]);
      i := i + 1;
    }
    assert l.nodes[..i] == l.nodes;
  }

}
