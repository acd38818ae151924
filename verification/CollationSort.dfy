/** StringUtils_sortList (string_utilities.cc): an insertion sort that takes the nodes out of a list one by one and
    links them into a sorted list, on the heap. */
module CollationSort {
  import opened Collation

  class Node {
    const data: Text
    var next: Node?

    constructor (data: Text)
      ensures this.data == data && next == null
    {
      this.data := data;
      next := null;
    }
  }

  function Members(nodes: seq<Node>): (s: set<Node>) {
    set x | x in nodes
  }

  predicate Distinct(nodes: seq<Node>) {
    forall i, j :: 0 <= i < j < |nodes| ==> nodes[i] != nodes[j]
  }

  function NextOf(nodes: seq<Node>, i: nat): (n: Node?) {
    if i < |nodes| then nodes[i] else null
  }

  /** The list behind head consists of the given nodes, in this order. */
  ghost predicate Linked(head: Node, nodes: seq<Node>)
    reads head, Members(nodes)
  {
    && head !in nodes && Distinct(nodes) && head.next == NextOf(nodes, 0)
    && forall i :: 0 <= i < |nodes| ==> nodes[i].next == NextOf(nodes, i + 1)
  }

  /** No string comes before an earlier one. */
  ghost predicate Nondecreasing(nodes: seq<Node>) {
    forall i, j :: 0 <= i < j < |nodes| ==> !Less(nodes[j].data, nodes[i].data)
  }

  lemma NotLessTransitive(a: Text, b: Text, c: Text)
    requires !Less(b, a) && !Less(c, b)
    ensures !Less(c, a)
  {
    hide Less;
    LessTotal(a, b);
    LessTotal(b, c);
    if Less(c, a) && a != b && b != c {
      LessTransitive(a, b, c);
      LessTotal(a, c);
    }
  }

  function Inserted(nodes: seq<Node>, i: nat, x: Node): (r: seq<Node>)
    requires i <= |nodes|
  {
    nodes[..i] + [x] + nodes[i..]
  }

  lemma InsertedNondecreasing(nodes: seq<Node>, i: nat, x: Node)
    requires Nondecreasing(nodes) && i <= |nodes|
    requires forall j :: 0 <= j < i ==> !Less(x.data, nodes[j].data)
    requires i < |nodes| ==> !Less(nodes[i].data, x.data)
    ensures Nondecreasing(Inserted(nodes, i, x))
  {
    hide Less;
    forall k | i <= k < |nodes| ensures !Less(nodes[k].data, x.data) {
      if k > i {
        NotLessTransitive(x.data, nodes[i].data, nodes[k].data);
      }
    }
    var r := Inserted(nodes, i, x);
    forall j, k | 0 <= j < k < |r| ensures !Less(r[k].data, r[j].data) {
      InsertedAt(nodes, i, x, j);
      InsertedAt(nodes, i, x, k);
    }
  }

  lemma InsertedAt(nodes: seq<Node>, i: nat, x: Node, k: nat)
    requires i <= |nodes| && k <= |nodes|
    ensures |Inserted(nodes, i, x)| == |nodes| + 1
    ensures Inserted(nodes, i, x)[k] == if k < i then nodes[k] else if k == i then x else nodes[k - 1]
  {
  }

  lemma InsertedDistinct(head: Node, nodes: seq<Node>, i: nat, x: Node)
    requires i <= |nodes| && Distinct(nodes) && head !in nodes && x != head && x !in nodes
    ensures Distinct(Inserted(nodes, i, x)) && head !in Inserted(nodes, i, x)
  {
    hide Inserted;
    var r := Inserted(nodes, i, x);
    InsertedAt(nodes, i, x, 0);
    forall k | 0 <= k < |r| ensures r[k] != head {
      InsertedAt(nodes, i, x, k);
    }
    forall j, k | 0 <= j < k < |r| ensures r[j] != r[k] {
      InsertedAt(nodes, i, x, j);
      InsertedAt(nodes, i, x, k);
    }
  }

  lemma NextInserted(nodes: seq<Node>, i: nat, x: Node, k: nat)
    requires i <= |nodes|
    ensures NextOf(Inserted(nodes, i, x), k) ==
            if k < i then NextOf(nodes, k) else if k == i then x else NextOf(nodes, k - 1)
  {
    hide Inserted;
    InsertedAt(nodes, i, x, if k <= |nodes| then k else 0);
  }

  lemma InsertedElements(nodes: seq<Node>, i: nat, x: Node)
    requires i <= |nodes|
    ensures multiset(Inserted(nodes, i, x)) == multiset(nodes) + multiset{x}
  {
    assert nodes == nodes[..i] + nodes[i..];
  }

  /** Links x in behind prev, which is head or node i - 1. */
  method LinkIn(head: Node, ghost nodes: seq<Node>, ghost i: nat, prev: Node, x: Node)
    requires Linked(head, nodes) && i <= |nodes| && prev == (if i == 0 then head else nodes[i - 1])
    requires x != head && x !in nodes
    modifies prev`next, x`next
    ensures Linked(head, Inserted(nodes, i, x))
  {
    hide Inserted, NextOf;
    InsertedDistinct(head, nodes, i, x);
    x.next := prev.next;
    prev.next := x;
    ghost var r := Inserted(nodes, i, x);
    InsertedAt(nodes, i, x, 0);
    NextInserted(nodes, i, x, 0);
    forall k | 0 <= k < |r| ensures r[k].next == NextOf(r, k + 1) {
      InsertedAt(nodes, i, x, k);
      NextInserted(nodes, i, x, k + 1);
    }
  }

  /** The inner loop: walks along the sorted list to the first string that x comes before, ties broken by addresses. */
  method FindPlace(head: Node, ghost nodes: seq<Node>, x: Node) returns (prev: Node, ghost i: nat)
    requires Linked(head, nodes)
    ensures i <= |nodes| && prev == if i == 0 then head else nodes[i - 1]
    ensures forall j :: 0 <= j < i ==> !Less(x.data, nodes[j].data)
    ensures i < |nodes| ==> !Less(nodes[i].data, x.data)
  {
    hide Less, Distinct;
    prev, i := head, 0;
    while prev.next != null
      invariant i <= |nodes| && prev == if i == 0 then head else nodes[i - 1]
      invariant forall j :: 0 <= j < i ==> !Less(x.data, nodes[j].data)
      decreases |nodes| - i
    {
      var addressDifference: int := *;
      var diff := CompareStrings(x.data, prev.next.data, addressDifference);
      LessTotal(x.data, prev.next.data);
      if diff < 0 {
        return;
      }
      prev := prev.next;
      i := i + 1;
    }
  }

  method Insert(head: Node, ghost nodes: seq<Node>, x: Node) returns (ghost i: nat)
    requires Linked(head, nodes) && Nondecreasing(nodes) && x != head && x !in nodes
    modifies head`next, Members(nodes)`next, x`next
    ensures i <= |nodes| && Linked(head, Inserted(nodes, i, x)) && Nondecreasing(Inserted(nodes, i, x))
    ensures multiset(Inserted(nodes, i, x)) == multiset(nodes) + multiset{x}
  {
    hide Less, Nondecreasing, Inserted, Linked;
    var prev;
    prev, i := FindPlace(head, nodes, x);
    InsertedNondecreasing(nodes, i, x);
    InsertedElements(nodes, i, x);
    LinkIn(head, nodes, i, prev, x);
  }

  /** Two lists without a node in common. */
  predicate Apart(list: Node, rest: seq<Node>, head: Node, sorted: seq<Node>) {
    list != head && list !in sorted && head !in rest && forall x :: x in rest ==> x !in sorted
  }

  /** Takes the selected node, which is the first, out of the list. */
  method TakeFirst(list: Node, x: Node, ghost rest: seq<Node>)
    requires Linked(list, rest) && list.next == x
    modifies list`next, x`next
    ensures rest != [] && rest[0] == x && x !in rest[1..] && x.next == null && Linked(list, rest[1..])
  {
    list.next := x.next;
    x.next := null;
    ghost var r := rest[1..];
    forall k | 0 <= k < |r| ensures r[k].next == NextOf(r, k + 1) {
      assert r[k] == rest[k + 1] && rest[k + 1].next == NextOf(rest, k + 2);
    }
  }

  /** One round of the outer loop: the selected node moves to its place in the sorted list. */
  method MoveFirst(list: Node, x: Node, ghost rest: seq<Node>, head: Node, ghost sorted: seq<Node>)
    returns (ghost sorted': seq<Node>)
    requires Linked(list, rest) && list.next == x && Linked(head, sorted) && Nondecreasing(sorted)
    requires x in rest && Apart(list, rest, head, sorted)
    modifies list`next, x`next, head`next, Members(sorted)`next
    ensures rest != [] && Linked(list, rest[1..]) && Linked(head, sorted') && Nondecreasing(sorted')
    ensures Apart(list, rest[1..], head, sorted')
    ensures rest[0] == x && multiset(sorted') == multiset(sorted) + multiset{x}
  {
    hide Nondecreasing, Inserted, Linked;
    ListApart(list, rest);
    TakeFirst(list, x, rest);
    assert rest == [x] + rest[1..];
    assert Members(rest[1..]) !! Members(sorted) + {x, head} by {
      assert forall y :: y in rest[1..] ==> y in rest;
    }
    ghost var i := Insert(head, sorted, x);
    sorted' := Inserted(sorted, i, x);
    InsertedMembers(sorted, i, x);
  }

  lemma ListApart(list: Node, rest: seq<Node>)
    requires Linked(list, rest)
    ensures list !in rest
  {
  }

  lemma Ended(list: Node, rest: seq<Node>)
    requires Linked(list, rest)
    ensures if rest == [] then list.next == null else list.next == rest[0]
  {
  }

  lemma InsertedMembers(nodes: seq<Node>, i: nat, x: Node)
    requires i <= |nodes|
    ensures forall y :: y in Inserted(nodes, i, x) <==> y == x || y in nodes
  {
    assert nodes == nodes[..i] + nodes[i..];
  }

  /** sortList: the list keeps its nodes and each node its string; afterwards the strings are in order. */
  method SortList(list: Node, ghost nodes: seq<Node>) returns (ghost sorted: seq<Node>)
    requires Linked(list, nodes)
    modifies list`next, Members(nodes)`next
    ensures Linked(list, sorted) && Nondecreasing(sorted) && multiset(sorted) == multiset(nodes)
  {
    hide Nondecreasing, Linked, Apart;
    var sortedList := new Node([]);
    sorted := [];
    ghost var rest := nodes;
    NoneYet(list, nodes, sortedList);
    var selected := list.next;
    while selected != null
      invariant selected == list.next && Linked(list, rest) && Linked(sortedList, sorted) && Nondecreasing(sorted)
                && Apart(list, rest, sortedList, sorted)
      invariant multiset(sorted) + multiset(rest) == multiset(nodes)
      decreases |rest|
    {
      Ended(list, rest);
      SameMembers(sorted, rest, nodes);
      assert rest == [selected] + rest[1..];
      sorted := MoveFirst(list, selected, rest, sortedList, sorted);
      rest := rest[1..];
      selected := list.next;
    }
    Ended(list, rest);
    Relink(list, sortedList, sorted);
  }

  /** The sorted list is hung behind the caller's head. */
  method Relink(list: Node, head: Node, ghost sorted: seq<Node>)
    requires Linked(head, sorted) && Apart(list, [], head, sorted)
    modifies list`next
    ensures Linked(list, sorted)
  {
    list.next := head.next;
  }

  lemma NoneYet(list: Node, nodes: seq<Node>, head: Node)
    requires head.next == null && head != list && head !in nodes
    ensures Nondecreasing([]) && Linked(head, []) && Apart(list, nodes, head, [])
  {
  }

  lemma SameMembers(a: seq<Node>, b: seq<Node>, c: seq<Node>)
    requires multiset(a) + multiset(b) == multiset(c)
    ensures forall x :: x in a || x in b ==> x in c
  {
    forall x | x in a || x in b ensures x in c {
      assert x in multiset(a) + multiset(b);
    }
  }

  // ----- ties do not matter

  ghost predicate InCollation(texts: seq<Text>) {
    forall i, j :: 0 <= i < j < |texts| ==> !Less(texts[j], texts[i])
  }

  lemma FirstIsLeast(a: seq<Text>, b: seq<Text>)
    requires InCollation(a) && b != [] && multiset(a) == multiset(b)
    ensures a != [] && !Less(b[0], a[0])
  {
    hide Less;
    assert b[0] in multiset(b);
    assert b[0] in multiset(a);
    var k :| 0 <= k < |a| && a[k] == b[0];
    LessTotal(a[0], a[0]);
  }

  /** A collection of strings has only one order in which no string comes before an earlier one. */
  lemma {:induction false} OneCollation(a: seq<Text>, b: seq<Text>)
    requires InCollation(a) && InCollation(b) && multiset(a) == multiset(b)
    ensures a == b
  {
    hide Less, InCollation;
    if a == [] || b == [] {
      assert |multiset(a)| == |a| && |multiset(b)| == |b|;
    } else {
      FirstIsLeast(a, b);
      FirstIsLeast(b, a);
      LessTotal(a[0], b[0]);
      FirstRemoved(a);
      FirstRemoved(b);
      TailInCollation(a);
      TailInCollation(b);
      OneCollation(a[1..], b[1..]);
      assert a == [a[0]] + a[1..] && b == [b[0]] + b[1..];
    }
  }

  lemma TailInCollation(a: seq<Text>)
    requires a != [] && InCollation(a)
    ensures InCollation(a[1..])
  {
    hide Less;
  }

  lemma FirstRemoved(a: seq<Text>)
    requires a != []
    ensures multiset(a[1..]) == multiset(a) - multiset{a[0]}
  {
    assert a == [a[0]] + a[1..];
  }

  function Texts(nodes: seq<Node>): (ts: seq<Text>)
    ensures |ts| == |nodes| && forall i :: 0 <= i < |ts| ==> ts[i] == nodes[i].data
  {
    seq(|nodes|, i requires 0 <= i < |nodes| => nodes[i].data)
  }

  lemma TextsAppend(s: seq<Node>, t: seq<Node>)
    ensures Texts(s + t) == Texts(s) + Texts(t)
  {
  }

  function Without(t: seq<Node>, k: nat): (r: seq<Node>)
    requires k < |t|
  {
    t[..k] + t[k + 1..]
  }

  lemma TakenOut(t: seq<Node>, k: nat)
    requires k < |t|
    ensures multiset(t) == multiset(Without(t, k)) + multiset{t[k]}
    ensures multiset(Texts(t)) == multiset(Texts(Without(t, k))) + multiset{t[k].data}
  {
    assert t == t[..k] + ([t[k]] + t[k + 1..]);
    hide Texts;
    TextsAppend(t[..k], [t[k]] + t[k + 1..]);
    TextsAppend([t[k]], t[k + 1..]);
    TextsAppend(t[..k], t[k + 1..]);
    assert Texts([t[k]]) == [t[k].data];
  }

  lemma {:induction false} SameTexts(s: seq<Node>, t: seq<Node>)
    requires multiset(s) == multiset(t)
    ensures multiset(Texts(s)) == multiset(Texts(t))
    decreases |s|
  {
    hide Texts, Without;
    if s == [] || t == [] {
      assert |multiset(s)| == |s| && |multiset(t)| == |t|;
      assert s == t;
    } else {
      assert s[0] in multiset(s);
      assert s[0] in multiset(t);
      var k :| 0 <= k < |t| && t[k] == s[0];
      TakenOut(s, 0);
      TakenOut(t, k);
      var s', t' := Without(s, 0), Without(t, k);
      assert multiset(s') == multiset(s) - multiset{s[0]} && multiset(t') == multiset(t) - multiset{t[k]};
      assert |multiset(s')| == |s'| && |multiset(s)| == |s|;
      SameTexts(s', t');
    }
  }

  /** So however equal strings were ordered by their addresses, every sorted arrangement of the same nodes shows the
      same strings in the same places. */
  lemma TiesIrrelevant(s: seq<Node>, t: seq<Node>)
    requires multiset(s) == multiset(t) && Nondecreasing(s) && Nondecreasing(t)
    ensures Texts(s) == Texts(t)
  {
    hide Less;
    SameTexts(s, t);
    OneCollation(Texts(s), Texts(t));
  }
}
