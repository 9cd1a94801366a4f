/**
 * The singly linked list exercises: nodes are heap objects whose `next`
 * field the operations rewire in place. A list is described by the ghost
 * sequence of the nodes it visits, so that "the list starting at `head`"
 * and "the values of the list" can be stated without recursion on the
 * heap. A node's value is never reassigned by the source, so it is a
 * `const`; only `next` changes.
 */
module LinkedListExam {
  import opened Text

  class Node {
    const value: int
    var next: Node?

    constructor (value: int)
      ensures this.value == value && next == null
    {
      this.value := value;
      next := null;
    }
  }

  ghost predicate Distinct(nodes: seq<Node>) {
    forall i, j :: 0 <= i < j < |nodes| ==> nodes[i] != nodes[j]
  }

  /** Each node but the last points to the one after it. */
  ghost predicate Linked(nodes: seq<Node>)
    reads nodes
  {
    forall i :: 0 <= i < |nodes| - 1 ==> nodes[i].next == nodes[i + 1]
  }

  /** `head` starts a null-terminated list that visits exactly `nodes`, in order. */
  ghost predicate IsList(head: Node?, nodes: seq<Node>)
    reads nodes
  {
    Distinct(nodes) && Linked(nodes) &&
    if nodes == [] then head == null else head == nodes[0] && nodes[|nodes| - 1].next == null
  }

  function Values(nodes: seq<Node>): seq<int> {
    seq(|nodes|, i requires 0 <= i < |nodes| => nodes[i].value)
  }

  lemma ValuesAppend(nodes: seq<Node>, x: Node)
    ensures Values(nodes + [x]) == Values(nodes) + [x.value]
  {
  }

  lemma DistinctAppend(s: seq<Node>, x: Node)
    requires Distinct(s) && forall k :: 0 <= k < |s| ==> s[k] != x
    ensures Distinct(s + [x])
  {
  }

  lemma Regroup<T>(p: seq<T>, d: T, r: seq<T>)
    ensures (p + [d]) + r == p + ([d] + r)
  {
  }

  /** The node at position `i` of a list, or the `undefined` past its end. */
  function At(nodes: seq<Node>, i: int): Node?
    requires 0 <= i
  {
    if i < |nodes| then nodes[i] else null
  }

  /** A node of a list with a successor is not the last one, and its successor is the next in line. */
  lemma NextIndex(head: Node?, nodes: seq<Node>, i: int)
    requires IsList(head, nodes) && 0 <= i < |nodes| && nodes[i].next != null
    ensures i + 1 < |nodes| && nodes[i].next == nodes[i + 1]
  {
  }

  lemma Successor(head: Node?, nodes: seq<Node>, i: int)
    requires IsList(head, nodes) && 0 <= i < |nodes| - 1
    ensures nodes[i].next == nodes[i + 1]
  {
  }

  /** The one node of a list without a successor is the last one. */
  lemma LastIndex(head: Node?, nodes: seq<Node>, i: int)
    requires IsList(head, nodes) && 0 <= i < |nodes| && nodes[i].next == null
    ensures i == |nodes| - 1
  {
    HasSuccessors(nodes);
  }

  lemma HasSuccessors(nodes: seq<Node>)
    requires Linked(nodes)
    ensures forall k :: 0 <= k < |nodes| - 1 ==> nodes[k].next != null
  {
    forall k | 0 <= k < |nodes| - 1 ensures nodes[k].next != null {
      assert nodes[k].next == nodes[k + 1];
    }
  }

  lemma ValuesReverse(nodes: seq<Node>)
    ensures Values(Reverse(nodes)) == Reverse(Values(nodes))
  {
  }

  // ---------------------------------------------------------------------------
  // createList, printList
  // ---------------------------------------------------------------------------

  /** `createList`: one fresh node per value, linked in the order of `values`. */
  method CreateList(values: seq<int>) returns (root: Node, ghost nodes: seq<Node>)
    requires |values| >= 1
    ensures IsList(root, nodes) && Values(nodes) == values
    ensures forall k :: 0 <= k < |nodes| ==> fresh(nodes[k])
  {
    root := new Node(values[0]);
    var p := root;
    nodes := [root];
    for i := 1 to |values|
      invariant |nodes| == i && IsList(root, nodes) && p == nodes[i - 1]
      invariant Values(nodes) == values[..i]
      invariant forall k :: 0 <= k < |nodes| ==> fresh(nodes[k])
    {
      var node := new Node(values[i]);
      p.next := node;
      p := node;
      nodes := nodes + [node];
    }
  }

  /** The template `[${values.join(", ")}]`, with `String(v)` for each value. */
  function ListText(values: seq<int>): string {
    "[" + CommaJoin(values) + "]"
  }

  function CommaJoin(values: seq<int>): string
    decreases |values|
  {
    if values == [] then ""
    else if |values| == 1 then IntToString(values[0])
    else IntToString(values[0]) + ", " + CommaJoin(values[1..])
  }

  /** `printList`: walks the list to its end, collecting the values, and renders them. */
  method PrintList(root: Node, ghost nodes: seq<Node>) returns (text: string)
    requires IsList(root, nodes)
    ensures text == ListText(Values(nodes))
  {
    var values: seq<int> := [];
    var p: Node? := root;
    ghost var i := 0;
    while p != null
      invariant 0 <= i <= |nodes| && p == At(nodes, i)
      invariant values == Values(nodes[..i])
      decreases |nodes| - i
    {
      values := values + [p.value];
      p := p.next;
      i := i + 1;
    }
    assert nodes[..i] == nodes;
    text := ListText(values);
  }

  // ---------------------------------------------------------------------------
  // Reversal
  // ---------------------------------------------------------------------------

  /**
   * The first `i` nodes already point backwards: `nodes[0]` to null, every
   * later one to its predecessor.
   */
  ghost predicate PointsBack(nodes: seq<Node>, i: int)
    reads nodes
    requires 0 <= i <= |nodes|
  {
    (i > 0 ==> nodes[0].next == null) && forall k :: 0 < k < i ==> nodes[k].next == nodes[k - 1]
  }

  lemma PointsBackIsReverse(nodes: seq<Node>)
    requires Distinct(nodes) && |nodes| > 0 && PointsBack(nodes, |nodes|)
    ensures IsList(nodes[|nodes| - 1], Reverse(nodes))
  {
    var r := Reverse(nodes);
    forall k | 0 <= k < |r| - 1 ensures r[k].next == r[k + 1] {
      assert r[k] == nodes[|nodes| - 1 - k] && r[k + 1] == nodes[|nodes| - 1 - k - 1];
    }
    forall i, j | 0 <= i < j < |r| ensures r[i] != r[j] {
      assert r[i] == nodes[|nodes| - 1 - i] && r[j] == nodes[|nodes| - 1 - j];
    }
  }

  /**
   * `reverseListInerative`: turn every `next` around while walking the
   * list. The old tail is returned as the new head; the old head ends the
   * reversed list.
   */
  method ReverseIterative(head: Node, ghost nodes: seq<Node>) returns (newHead: Node)
    requires IsList(head, nodes)
    modifies nodes
    ensures IsList(newHead, Reverse(nodes))
  {
    var curr: Node? := head;
    var prev: Node? := null;
    ghost var i := 0;
    while curr != null
      invariant 0 <= i <= |nodes| && curr == At(nodes, i)
      invariant prev == (if i == 0 then null else nodes[i - 1])
      invariant Distinct(nodes) && PointsBack(nodes, i)
      invariant forall k :: i <= k < |nodes| - 1 ==> nodes[k].next == nodes[k + 1]
      invariant i < |nodes| ==> nodes[|nodes| - 1].next == null
      decreases |nodes| - i
    {
      var next := curr.next;
      curr.next := prev;
      prev := curr;
      curr := next;
      i := i + 1;
    }
    PointsBackIsReverse(nodes);
    newHead := prev;
  }

  lemma ReverseCons<T>(s: seq<T>)
    requires |s| > 0
    ensures Reverse(s) == Reverse(s[1..]) + [s[0]]
  {
  }

  /**
   * `reverseListRecursive`: reverse the tail, hang the head after the old
   * second node, and cut the head's own link.
   */
  method ReverseRecursive(head: Node, ghost nodes: seq<Node>) returns (newHead: Node)
    requires IsList(head, nodes)
    modifies nodes
    ensures IsList(newHead, Reverse(nodes))
    decreases |nodes|
  {
    if head.next == null {
      LastIndex(head, nodes, 0);
      assert nodes == [head];
      return head;
    }
    var second := head.next;
    assert head !in nodes[1..];
    newHead := ReverseRecursive(second, nodes[1..]);
    head.next.next := head;
    head.next := null;
    ghost var rest := Reverse(nodes[1..]);
    ReverseCons(nodes);
    assert rest[|rest| - 1] == second;
    assert forall k :: 0 <= k < |rest| ==> rest[k] in nodes[1..];
  }

  // ---------------------------------------------------------------------------
  // mergeSortedList
  // ---------------------------------------------------------------------------

  /**
   * The merge order: the smaller head value first, and on equal values the
   * head of the second list.
   */
  function MergeNodes(a: seq<Node>, b: seq<Node>): seq<Node>
    decreases |a| + |b|
  {
    if a == [] then b
    else if b == [] then a
    else if a[0].value < b[0].value then [a[0]] + MergeNodes(a[1..], b)
    else [b[0]] + MergeNodes(a, b[1..])
  }

  /** The values along `nodes` never decrease. */
  predicate Ascending(nodes: seq<Node>) {
    forall i, j :: 0 <= i < j < |nodes| ==> nodes[i].value <= nodes[j].value
  }

  /** The merge takes every node of both lists, each once. */
  lemma {:induction false} MergeNodesPermutation(a: seq<Node>, b: seq<Node>)
    ensures multiset(MergeNodes(a, b)) == multiset(a) + multiset(b)
    decreases |a| + |b|
  {
    if a != [] && b != [] {
      if a[0].value < b[0].value {
        MergeNodesPermutation(a[1..], b);
        assert a == [a[0]] + a[1..];
      } else {
        MergeNodesPermutation(a, b[1..]);
        assert b == [b[0]] + b[1..];
      }
    }
  }

  /** The merge's first value is the smaller of the two first values. */
  lemma MergeNodesFirst(a: seq<Node>, b: seq<Node>)
    requires a != [] || b != []
    ensures MergeNodes(a, b) != []
    ensures a != [] && b != [] ==> MergeNodes(a, b)[0].value == Min(a[0].value, b[0].value)
    ensures a == [] ==> MergeNodes(a, b)[0] == b[0]
    ensures b == [] ==> MergeNodes(a, b)[0] == a[0]
  {
  }


  /** Merging two ascending lists gives an ascending list. */
  lemma {:induction false} MergeNodesAscending(a: seq<Node>, b: seq<Node>)
    requires Ascending(a) && Ascending(b)
    ensures Ascending(MergeNodes(a, b))
    decreases |a| + |b|
  {
    if a != [] && b != [] {
      if a[0].value < b[0].value {
        MergeNodesAscending(a[1..], b);
        var rest := MergeNodes(a[1..], b);
        MergeNodesFirst(a[1..], b);
        if a[1..] != [] {
          assert a[1..][0] == a[1];
        }
        AscendingCons(a[0], rest);
      } else {
        MergeNodesAscending(a, b[1..]);
        var rest := MergeNodes(a, b[1..]);
        MergeNodesFirst(a, b[1..]);
        if b[1..] != [] {
          assert b[1..][0] == b[1];
        }
        AscendingCons(b[0], rest);
      }
    }
  }

  lemma AscendingCons(x: Node, s: seq<Node>)
    requires Ascending(s) && (s != [] ==> x.value <= s[0].value)
    ensures Ascending([x] + s)
  {
  }

  /** The last node of the chain that hangs from `dummy`. */
  function LastOf(dummy: Node, done: seq<Node>): Node {
    if done == [] then dummy else done[|done| - 1]
  }

  ghost predicate Disjoint(a: seq<Node>, b: seq<Node>) {
    forall i, j :: 0 <= i < |a| && 0 <= j < |b| ==> a[i] != b[j]
  }

  lemma DistinctCons(x: Node, s: seq<Node>)
    requires Distinct(s) && x !in s
    ensures Distinct([x] + s)
  {
  }

  /** The merge is made of the nodes of the two lists and nothing else. */
  lemma MergeNodesMembers(a: seq<Node>, b: seq<Node>)
    ensures forall x :: x in MergeNodes(a, b) <==> x in a || x in b
  {
    MergeNodesPermutation(a, b);
    forall x ensures x in MergeNodes(a, b) <==> x in a || x in b {
      assert x in MergeNodes(a, b) <==> x in multiset(MergeNodes(a, b));
      assert x in a <==> x in multiset(a);
      assert x in b <==> x in multiset(b);
    }
  }

  /** A node in neither list is not in their merge. */
  lemma MergeNodesAvoid(a: seq<Node>, b: seq<Node>, x: Node)
    requires forall k :: 0 <= k < |a| ==> a[k] != x
    requires forall k :: 0 <= k < |b| ==> b[k] != x
    ensures forall k :: 0 <= k < |MergeNodes(a, b)| ==> MergeNodes(a, b)[k] != x
  {
    MergeNodesMembers(a, b);
  }

  /** Merging two disjoint lists of distinct nodes takes no node twice. */
  lemma {:induction false} MergeNodesDistinct(a: seq<Node>, b: seq<Node>)
    requires Distinct(a) && Distinct(b) && Disjoint(a, b)
    ensures Distinct(MergeNodes(a, b))
    decreases |a| + |b|
  {
    if a != [] && b != [] {
      if a[0].value < b[0].value {
        MergeNodesDistinct(a[1..], b);
        MergeNodesMembers(a[1..], b);
        assert a[0] !in a[1..];
        assert a[0] !in b;
        DistinctCons(a[0], MergeNodes(a[1..], b));
      } else {
        MergeNodesDistinct(a, b[1..]);
        MergeNodesMembers(a, b[1..]);
        assert b[0] !in b[1..];
        assert b[0] !in a;
        DistinctCons(b[0], MergeNodes(a, b[1..]));
      }
    }
  }

  /**
   * The history of the merge loop: the nodes `done`, in the order they were
   * spliced, are what it takes to consume the first `i` nodes of `a` and the
   * first `j` of `b` while both lists still had a node, each step taking
   * `a`'s node only when its value is strictly smaller.
   */
  ghost predicate Merged(a: seq<Node>, b: seq<Node>, i: int, j: int, done: seq<Node>)
    decreases |done|
  {
    0 <= i <= |a| && 0 <= j <= |b| &&
    if done == [] then i == 0 && j == 0
    else
      var last, prior := done[|done| - 1], done[..|done| - 1];
      (1 <= i && last == a[i - 1] && j < |b| && a[i - 1].value < b[j].value && Merged(a, b, i - 1, j, prior)) ||
      (1 <= j && last == b[j - 1] && i < |a| && a[i].value >= b[j - 1].value && Merged(a, b, i, j - 1, prior))
  }

  /** What the loop has spliced so far is the start of the merge; the rest is the merge of what is left. */
  lemma {:induction false} MergedPrefix(a: seq<Node>, b: seq<Node>, i: int, j: int, done: seq<Node>)
    requires Merged(a, b, i, j, done)
    ensures MergeNodes(a, b) == done + MergeNodes(a[i..], b[j..])
    decreases |done|
  {
    if done == [] {
      assert a[i..] == a && b[j..] == b;
    } else {
      var last, prior := done[|done| - 1], done[..|done| - 1];
      assert done == prior + [last];
      if 1 <= i && last == a[i - 1] && j < |b| && a[i - 1].value < b[j].value && Merged(a, b, i - 1, j, prior) {
        MergedPrefix(a, b, i - 1, j, prior);
        MergeFirstStep(a, b, i, j);
        Regroup(prior, last, MergeNodes(a[i..], b[j..]));
      } else {
        MergedPrefix(a, b, i, j - 1, prior);
        MergeSecondStep(a, b, i, j);
        Regroup(prior, last, MergeNodes(a[i..], b[j..]));
      }
    }
  }

  /** A merge step that takes the head of the first list, which ends at position `i`. */
  lemma MergeFirstStep(a: seq<Node>, b: seq<Node>, i: int, j: int)
    requires 1 <= i <= |a| && 0 <= j < |b| && a[i - 1].value < b[j].value
    ensures MergeNodes(a[i - 1..], b[j..]) == [a[i - 1]] + MergeNodes(a[i..], b[j..])
  {
    assert a[i - 1..][1..] == a[i..];
  }

  /** A merge step that takes the head of the second list, which ends at position `j`. */
  lemma MergeSecondStep(a: seq<Node>, b: seq<Node>, i: int, j: int)
    requires 0 <= i < |a| && 1 <= j <= |b| && a[i].value >= b[j - 1].value
    ensures MergeNodes(a[i..], b[j - 1..]) == [b[j - 1]] + MergeNodes(a[i..], b[j..])
  {
    assert b[j - 1..][1..] == b[j..];
  }

  /** Two disjoint lists of distinct nodes, neither of which holds the dummy head. */
  ghost predicate Separate(a: seq<Node>, b: seq<Node>, dummy: Node) {
    Distinct(a) && Distinct(b) && Disjoint(a, b) &&
    (forall k :: 0 <= k < |a| ==> a[k] != dummy) && (forall k :: 0 <= k < |b| ==> b[k] != dummy)
  }

  /** The end of the chain is none of the nodes still to come, nor any earlier node of the chain. */
  lemma Ahead(a: seq<Node>, b: seq<Node>, i: int, j: int, done: seq<Node>, dummy: Node)
    requires Merged(a, b, i, j, done) && Separate(a, b, dummy)
    ensures forall m :: i <= m < |a| ==> a[m] != LastOf(dummy, done)
    ensures forall m :: j <= m < |b| ==> b[m] != LastOf(dummy, done)
    ensures forall k :: 0 <= k < |done| - 1 ==> done[k] != LastOf(dummy, done)
    ensures forall k :: 0 <= k < |done| ==> done[k] != dummy
  {
    MergedPrefix(a, b, i, j, done);
    var merged := MergeNodes(a, b);
    var rest := MergeNodes(a[i..], b[j..]);
    MergeNodesDistinct(a, b);
    MergeNodesAvoid(a, b, dummy);
    MergeNodesMembers(a[i..], b[j..]);
    forall m | i <= m < |a| ensures a[m] != LastOf(dummy, done) {
      assert a[m] == a[i..][m - i];
      assert a[m] in rest;
      var t :| 0 <= t < |rest| && rest[t] == a[m];
      assert merged[|done| + t] == a[m];
      if done != [] {
        assert merged[|done| - 1] == LastOf(dummy, done);
      }
    }
    forall m | j <= m < |b| ensures b[m] != LastOf(dummy, done) {
      assert b[m] == b[j..][m - j];
      assert b[m] in rest;
      var t :| 0 <= t < |rest| && rest[t] == b[m];
      assert merged[|done| + t] == b[m];
      if done != [] {
        assert merged[|done| - 1] == LastOf(dummy, done);
      }
    }
    forall k | 0 <= k < |done| ensures done[k] != dummy && (k < |done| - 1 ==> done[k] != LastOf(dummy, done)) {
      assert merged[k] == done[k];
      assert merged[|done| - 1] == done[|done| - 1];
    }
  }

  lemma TakeFirst(a: seq<Node>, b: seq<Node>, i: int, j: int, done: seq<Node>)
    requires Merged(a, b, i, j, done) && i < |a| && j < |b| && a[i].value < b[j].value
    ensures Merged(a, b, i + 1, j, done + [a[i]])
  {
    assert (done + [a[i]])[..|done|] == done;
  }

  lemma TakeSecond(a: seq<Node>, b: seq<Node>, i: int, j: int, done: seq<Node>)
    requires Merged(a, b, i, j, done) && i < |a| && j < |b| && a[i].value >= b[j].value
    ensures Merged(a, b, i, j + 1, done + [b[j]])
  {
    assert (done + [b[j]])[..|done|] == done;
  }

  /** When one list is used up, the merge is the prefix followed by the rest of the other. */
  lemma MergeRest(a: seq<Node>, b: seq<Node>, i: int, j: int, done: seq<Node>)
    requires Merged(a, b, i, j, done) && (i == |a| || j == |b|)
    ensures MergeNodes(a, b) == done + (if i < |a| then a[i..] else b[j..])
  {
    MergedPrefix(a, b, i, j, done);
  }

  /** Once one list is used up, the chain from the dummy head, followed by what is left, is the whole merge. */
  lemma FinishMerge(a: seq<Node>, b: seq<Node>, na: seq<Node?>, nb: seq<Node?>, i: int, j: int, done: seq<Node>, dummy: Node)
    requires Merged(a, b, i, j, done) && Separate(a, b, dummy) && (i == |a| || j == |b|)
    requires Links(a, na) && Links(b, nb)
    requires forall k :: i <= k < |a| ==> a[k].next == na[k]
    requires forall k :: j <= k < |b| ==> b[k].next == nb[k]
    requires forall k :: 0 <= k < |done| - 1 ==> done[k].next == done[k + 1]
    requires done != [] ==> dummy.next == done[0]
    requires LastOf(dummy, done).next == if i < |a| then At(a, i) else At(b, j)
    ensures IsList(dummy.next, MergeNodes(a, b))
  {
    MergeRest(a, b, i, j, done);
    MergeNodesDistinct(a, b);
    if i < |a| {
      SuffixList(a, na, i);
      ChainJoin(done, a[i..], At(a, i));
    } else {
      SuffixList(b, nb, j);
      ChainJoin(done, b[j..], At(b, j));
    }
  }

  /** The successors of the given nodes, as they are now. */
  function Nexts(s: seq<Node>): (r: seq<Node?>)
    reads s
    ensures |r| == |s| && forall k :: 0 <= k < |s| ==> r[k] == s[k].next
  {
    seq(|s|, k requires 0 <= k < |s| reads s => s[k].next)
  }

  /** Links `nexts` make the nodes `s` one list, in order. */
  ghost predicate Links(s: seq<Node>, nexts: seq<Node?>) {
    |nexts| == |s| && (forall k :: 0 <= k < |s| - 1 ==> nexts[k] == s[k + 1]) &&
    (s != [] ==> nexts[|s| - 1] == null)
  }

  lemma ListLinks(head: Node?, s: seq<Node>)
    requires IsList(head, s)
    ensures Links(s, Nexts(s))
  {
  }

  /** Where the links from position `i` on are still in place, the nodes from `i` on are a list. */
  lemma SuffixList(s: seq<Node>, nexts: seq<Node?>, i: int)
    requires Links(s, nexts) && Distinct(s) && 0 <= i <= |s|
    requires forall k :: i <= k < |s| ==> s[k].next == nexts[k]
    ensures IsList(At(s, i), s[i..])
  {
  }

  /** A linked chain whose last node points at the head of a list, and the list, make one list. */
  lemma ChainJoin(done: seq<Node>, rest: seq<Node>, restHead: Node?)
    requires Linked(done) && IsList(restHead, rest) && Distinct(done + rest)
    requires done != [] ==> done[|done| - 1].next == restHead
    ensures IsList(if done == [] then restHead else done[0], done + rest)
  {
    if done == [] {
      assert done + rest == rest;
    } else {
      var all := done + rest;
      forall k | 0 <= k < |all| - 1 ensures all[k].next == all[k + 1] {
        if k < |done| - 1 {
          assert all[k] == done[k] && all[k + 1] == done[k + 1];
        } else if k == |done| - 1 {
          assert all[k] == done[k];
        } else {
          assert all[k] == rest[k - |done|] && all[k + 1] == rest[k + 1 - |done|];
        }
      }
    }
  }

  /**
   * `mergeSortedList`: splice the nodes of two disjoint lists into one,
   * taking the first list's node only when its value is strictly smaller.
   * No node is created besides the dummy head, which is not part of the
   * result.
   */
  method MergeSortedList(p1: Node?, p2: Node?, ghost a: seq<Node>, ghost b: seq<Node>) returns (head: Node?)
    requires IsList(p1, a) && IsList(p2, b) && Disjoint(a, b)
    modifies a, b
    ensures IsList(head, MergeNodes(a, b))
  {
    ghost var na, nb := Nexts(a), Nexts(b);
    ListLinks(p1, a);
    ListLinks(p2, b);
    var dummy := new Node(-1);
    assert Separate(a, b, dummy);
    var curr, x1, x2, i, j, done := SpliceWhileBoth(dummy, p1, p2, a, b, na, nb);
    Ahead(a, b, i, j, done, dummy);
    curr.next := if x1 != null then x1 else x2;
    FinishMerge(a, b, na, nb, i, j, done, dummy);
    head := dummy.next;
  }

  /**
   * The loop of `mergeSortedList`: while both lists have a node, splice the
   * smaller head (the second list's on a tie) after `curr`, starting from the
   * dummy head. The nodes spliced so far are `done`.
   */
  method SpliceWhileBoth(dummy: Node, p1: Node?, p2: Node?, ghost a: seq<Node>, ghost b: seq<Node>,
                         ghost na: seq<Node?>, ghost nb: seq<Node?>)
    returns (curr: Node, x1: Node?, x2: Node?, ghost i: int, ghost j: int, ghost done: seq<Node>)
    requires Links(a, na) && Links(b, nb) && Separate(a, b, dummy)
    requires p1 == At(a, 0) && p2 == At(b, 0)
    requires forall k :: 0 <= k < |a| ==> a[k].next == na[k]
    requires forall k :: 0 <= k < |b| ==> b[k].next == nb[k]
    modifies a, b, dummy
    ensures Merged(a, b, i, j, done) && (x1 == null || x2 == null)
    ensures x1 == At(a, i) && x2 == At(b, j)
    ensures forall k :: i <= k < |a| ==> a[k].next == na[k]
    ensures forall k :: j <= k < |b| ==> b[k].next == nb[k]
    ensures forall k :: 0 <= k < |done| - 1 ==> done[k].next == done[k + 1]
    ensures curr == LastOf(dummy, done) && (done != [] ==> dummy.next == done[0])
  {
    curr := dummy;
    x1, x2 := p1, p2;
    i, j := 0, 0;
    done := [];
    while x1 != null && x2 != null
      invariant Merged(a, b, i, j, done)
      invariant x1 == At(a, i) && x2 == At(b, j)
      invariant forall k :: i <= k < |a| ==> a[k].next == na[k]
      invariant forall k :: j <= k < |b| ==> b[k].next == nb[k]
      invariant forall k :: 0 <= k < |done| - 1 ==> done[k].next == done[k + 1]
      invariant curr == LastOf(dummy, done) && (done != [] ==> dummy.next == done[0])
      decreases |a| + |b| - i - j
    {
      Ahead(a, b, i, j, done, dummy);
      ghost var taken: Node;
      if x1.value < x2.value {
        taken := x1;
        TakeFirst(a, b, i, j, done);
        curr.next := x1;
        x1 := x1.next;
        i := i + 1;
      } else {
        taken := x2;
        TakeSecond(a, b, i, j, done);
        curr.next := x2;
        x2 := x2.next;
        j := j + 1;
      }
      curr := curr.next;
      done := done + [taken];
    }
  }

  // ---------------------------------------------------------------------------
  // detectCycle
  // ---------------------------------------------------------------------------

  /**
   * `head` starts a walk through the distinct `nodes`, in order, after which
   * the last node's `next` is null (`loop < 0`) or leads back to
   * `nodes[loop]`.
   */
  ghost predicate IsLasso(head: Node, nodes: seq<Node>, loop: int)
    reads nodes
  {
    |nodes| > 0 && head == nodes[0] && Distinct(nodes) && Linked(nodes) && -1 <= loop < |nodes| &&
    nodes[|nodes| - 1].next == (if loop < 0 then null else nodes[loop])
  }

  /** The index of the node after `nodes[p]` on a lasso of `n` nodes whose loop starts at `loop`. */
  function Next(p: nat, n: nat, loop: nat): nat
    requires loop < n
  {
    if p + 1 < n then p + 1 else loop
  }

  /** The index of the node reached after `k` steps along the lasso. */
  function Pos(k: nat, n: nat, loop: nat): (p: nat)
    requires loop < n
    ensures p < n
  {
    if k == 0 then 0 else Next(Pos(k - 1, n, loop), n, loop)
  }

  lemma PosStep(head: Node, nodes: seq<Node>, loop: nat, k: nat)
    requires IsLasso(head, nodes, loop)
    ensures nodes[Pos(k, |nodes|, loop)].next == nodes[Pos(k + 1, |nodes|, loop)]
  {
  }

  lemma {:induction false} PosEarly(k: nat, n: nat, loop: nat)
    requires loop < n && k < n
    ensures Pos(k, n, loop) == k
  {
    if k > 0 {
      PosEarly(k - 1, n, loop);
    }
  }

  /** Once on the loop, the walk repeats after `n - loop` steps. */
  lemma {:induction false} PosPeriod(k: nat, n: nat, loop: nat)
    requires loop <= k && loop < n
    ensures Pos(k + (n - loop), n, loop) == Pos(k, n, loop)
    decreases k
  {
    if k == loop {
      PosEarly(n - 1, n, loop);
      PosEarly(loop, n, loop);
    } else {
      PosPeriod(k - 1, n, loop);
    }
  }

  /** `q * m`, by repeated addition. */
  function Times(q: nat, m: nat): (r: nat)
    ensures m >= 1 ==> r >= q
  {
    if q == 0 then 0 else Times(q - 1, m) + m
  }

  lemma {:induction false} PosPeriods(k: nat, q: nat, n: nat, loop: nat)
    requires loop <= k && loop < n
    ensures Pos(k + Times(q, n - loop), n, loop) == Pos(k, n, loop)
    decreases q
  {
    if q > 0 {
      PosPeriods(k, q - 1, n, loop);
      PosPeriod(k + Times(q - 1, n - loop), n, loop);
    }
  }

  /** A number of steps after which the tortoise and the hare stand on the same node. */
  function Meet(n: nat, loop: nat): (t: nat)
    requires loop < n
    ensures t > loop
  {
    Times(loop + 1, n - loop)
  }

  lemma MeetEqual(n: nat, loop: nat)
    requires loop < n
    ensures Pos(Meet(n, loop), n, loop) == Pos(2 * Meet(n, loop), n, loop)
  {
    PosPeriods(Meet(n, loop), loop + 1, n, loop);
  }

  /** One round on a list that ends: the hare stays strictly ahead of the tortoise. */
  lemma AcyclicRound(head: Node, nodes: seq<Node>, t: nat)
    requires IsLasso(head, nodes, -1) && 2 * t + 1 < |nodes|
    ensures nodes[t].next == nodes[t + 1] && nodes[2 * t].next == nodes[2 * t + 1]
    ensures nodes[2 * t + 1].next == At(nodes, 2 * t + 2) && nodes[t + 1] != At(nodes, 2 * t + 2)
  {
  }

  /** One round on a lasso: both advance along it, and they meet after `Meet` rounds. */
  lemma CyclicRound(head: Node, nodes: seq<Node>, loop: nat, t: nat)
    requires IsLasso(head, nodes, loop)
    ensures nodes[Pos(t, |nodes|, loop)].next == nodes[Pos(t + 1, |nodes|, loop)]
    ensures nodes[Pos(2 * t, |nodes|, loop)].next == nodes[Pos(2 * t + 1, |nodes|, loop)]
    ensures nodes[Pos(2 * t + 1, |nodes|, loop)].next == nodes[Pos(2 * (t + 1), |nodes|, loop)]
    ensures nodes[Pos(2 * (t + 1), |nodes|, loop)].next == nodes[Pos(2 * (t + 1) + 1, |nodes|, loop)]
    ensures t + 1 == Meet(|nodes|, loop) ==> nodes[Pos(t + 1, |nodes|, loop)] == nodes[Pos(2 * (t + 1), |nodes|, loop)]
  {
    PosStep(head, nodes, loop, t);
    PosStep(head, nodes, loop, 2 * t);
    PosStep(head, nodes, loop, 2 * t + 1);
    PosStep(head, nodes, loop, 2 * (t + 1));
    if t + 1 == Meet(|nodes|, loop) {
      MeetEqual(|nodes|, loop);
    }
  }

  /**
   * `detectCycle` (Floyd's tortoise and hare): true exactly when the list
   * loops back instead of ending.
   */
  method DetectCycle(head: Node, ghost nodes: seq<Node>, ghost loop: int) returns (cyclic: bool)
    requires IsLasso(head, nodes, loop)
    ensures cyclic <==> loop >= 0
  {
    var slow: Node := head;
    var fast: Node? := head;
    ghost var n := |nodes|;
    ghost var t: nat := 0;
    ghost var meet: nat := if loop >= 0 then Meet(n, loop) else 0;
    if loop >= 0 {
      PosStep(head, nodes, loop, 0);
    }
    while fast != null && fast.next != null
      invariant loop < 0 ==> t < n && slow == nodes[t] && fast == At(nodes, 2 * t)
      invariant loop >= 0 ==> t < meet && slow == nodes[Pos(t, n, loop)] && fast == nodes[Pos(2 * t, n, loop)]
      invariant loop >= 0 ==> fast.next == nodes[Pos(2 * t + 1, n, loop)]
      decreases if loop < 0 then n - 2 * t else meet - t
    {
      if loop >= 0 {
        CyclicRound(head, nodes, loop, t);
      } else {
        AcyclicRound(head, nodes, t);
      }
      slow := slow.next;
      fast := fast.next.next;
      t := t + 1;
      if slow == fast {
        return true;
      }
    }
    return false;
  }

  /** The demonstration's cycle: walk to the tail and point it back at the head. */
  method CloseCycle(list: Node, ghost nodes: seq<Node>)
    requires IsList(list, nodes)
    modifies nodes
    ensures IsLasso(list, nodes, 0)
  {
    var tail := list;
    ghost var i := 0;
    while tail.next != null
      invariant 0 <= i < |nodes| && tail == nodes[i] && IsList(list, nodes)
      decreases |nodes| - i
    {
      NextIndex(list, nodes, i);
      tail := tail.next;
      i := i + 1;
    }
    LastIndex(list, nodes, i);
    tail.next := list;
  }

  // ---------------------------------------------------------------------------
  // removeNthNodeFromEnd
  // ---------------------------------------------------------------------------

  /** `nodes` without the node at index `k`. */
  function Without(nodes: seq<Node>, k: int): seq<Node>
    requires 0 <= k < |nodes|
  {
    nodes[..k] + nodes[k + 1..]
  }

  /** Bypassing `nodes[r]` from its predecessor leaves a list of the others. */
  lemma Unlinked(nodes: seq<Node>, r: int)
    requires 1 <= r < |nodes| && Distinct(nodes)
    requires forall k :: 0 <= k < |nodes| - 1 && k != r - 1 ==> nodes[k].next == nodes[k + 1]
    requires r < |nodes| - 1 ==> nodes[|nodes| - 1].next == null
    requires nodes[r - 1].next == At(nodes, r + 1)
    ensures IsList(nodes[0], Without(nodes, r))
  {
    var w := Without(nodes, r);
    forall k | 0 <= k < |w| ensures w[k] == if k < r then nodes[k] else nodes[k + 1] {
    }
  }

  /**
   * `removeNthNodeFromEnd`: send `fast` `n` nodes ahead (the error, as
   * `None`, when the list runs out first), walk both until `fast` is the
   * tail, then unlink the node after `slow`. For n <= 0 that node is past
   * the tail and nothing changes.
   */
  method RemoveNthNodeFromEnd(head: Node, n: int, ghost nodes: seq<Node>) returns (result: Option<Node>)
    requires IsList(head, nodes)
    modifies nodes
    ensures result == None <==> n >= |nodes|
    ensures result == None ==> forall k :: 0 <= k < |nodes| ==> nodes[k].next == old(nodes[k].next)
    ensures result != None ==> result == Some(head)
    ensures n <= 0 ==> IsList(head, nodes)
    ensures 1 <= n < |nodes| ==> IsList(head, Without(nodes, |nodes| - n))
  {
    var fast: Node? := head;
    var slow: Node? := head;
    var i := 0;
    while i < n
      invariant 0 <= i && (i <= n || i == 0) && i < |nodes| && fast == nodes[i]
      invariant IsList(head, nodes) && unchanged(nodes)
      decreases n - i
    {
      if fast.next == null {
        LastIndex(head, nodes, i);
      } else {
        NextIndex(head, nodes, i);
      }
      fast := fast.next;
      if fast == null {
        return None;
      }
      i := i + 1;
    }
    ghost var k := 0;
    while fast.next != null
      invariant 0 <= k && k + i < |nodes| && fast == nodes[k + i] && slow == nodes[k]
      invariant IsList(head, nodes)
      decreases |nodes| - k
    {
      NextIndex(head, nodes, k + i);
      Successor(head, nodes, k);
      slow := slow.next;
      fast := fast.next;
      k := k + 1;
    }
    LastIndex(head, nodes, k + i);
    if k + 1 < |nodes| {
      Successor(head, nodes, k);
      if k + 2 < |nodes| {
        Successor(head, nodes, k + 1);
      }
    }
    slow.next := if slow.next != null then slow.next.next else null;
    if n >= 1 {
      Unlinked(nodes, k + 1);
    }
    return Some(head);
  }

  // ---------------------------------------------------------------------------
  // addTwoNumbers
  // ---------------------------------------------------------------------------

  /** The number whose decimal digits, least significant first, are `digits`. */
  function Number(digits: seq<int>): int
    decreases |digits|
  {
    if digits == [] then 0 else digits[0] + 10 * Number(digits[1..])
  }

  /** `head?.value ?? 0` and `head?.next` on a value sequence. */
  function Head(s: seq<int>): int { if s == [] then 0 else s[0] }

  function Tail(s: seq<int>): seq<int> { if s == [] then [] else s[1..] }

  /** The digits the loop of `addTwoNumbers` emits, from the given carry on. */
  function AddDigits(xs: seq<int>, ys: seq<int>, carry: int): seq<int>
    decreases |xs| + |ys|, if carry > 0 then carry else 0
  {
    if xs == [] && ys == [] && carry <= 0 then []
    else
      var sum := Head(xs) + Head(ys) + carry;
      [JsRem(sum, 10)] + AddDigits(Tail(xs), Tail(ys), sum / 10)
  }

  predicate NonNegative(s: seq<int>) { forall i :: 0 <= i < |s| ==> s[i] >= 0 }

  predicate IsDigits(s: seq<int>) { forall i :: 0 <= i < |s| ==> 0 <= s[i] <= 9 }

  /** With non-negative digits, every emitted digit is a decimal digit. */
  lemma {:induction false} AddDigitsAreDigits(xs: seq<int>, ys: seq<int>, carry: nat)
    requires NonNegative(xs) && NonNegative(ys)
    ensures IsDigits(AddDigits(xs, ys, carry))
    decreases |xs| + |ys|, carry
  {
    if !(xs == [] && ys == [] && carry <= 0) {
      var sum := Head(xs) + Head(ys) + carry;
      assert NonNegative(Tail(xs)) && NonNegative(Tail(ys));
      AddDigitsAreDigits(Tail(xs), Tail(ys), sum / 10);
      var rest := AddDigits(Tail(xs), Tail(ys), sum / 10);
      assert AddDigits(xs, ys, carry) == [sum % 10] + rest;
    }
  }

  /** With non-negative digits, the emitted digits spell the sum of the two numbers and the carry. */
  lemma {:induction false} AddDigitsCorrect(xs: seq<int>, ys: seq<int>, carry: nat)
    requires NonNegative(xs) && NonNegative(ys)
    ensures Number(AddDigits(xs, ys, carry)) == Number(xs) + Number(ys) + carry
    decreases |xs| + |ys|, carry
  {
    if !(xs == [] && ys == [] && carry <= 0) {
      var sum := Head(xs) + Head(ys) + carry;
      assert NonNegative(Tail(xs)) && NonNegative(Tail(ys));
      AddDigitsCorrect(Tail(xs), Tail(ys), sum / 10);
      var rest := AddDigits(Tail(xs), Tail(ys), sum / 10);
      var r := AddDigits(xs, ys, carry);
      assert r == [sum % 10] + rest;
      assert r[1..] == rest;
      assert Number(r) == sum % 10 + 10 * Number(rest);
      assert sum == 10 * (sum / 10) + sum % 10;
      assert Number(xs) == Head(xs) + 10 * Number(Tail(xs));
      assert Number(ys) == Head(ys) + 10 * Number(Tail(ys));
    }
  }

  /** The digit at position `i`, or the `?? 0` past the end. */
  function DigitAt(xs: seq<int>, i: int): int
    requires 0 <= i
  {
    if i < |xs| then xs[i] else 0
  }

  /** The position after `i`, or `i` itself once past the end (`head?.next` of `undefined`). */
  function After<T>(s: seq<T>, i: int): int
    requires 0 <= i
  {
    if i < |s| then i + 1 else i
  }

  /** One round of the addition loop: the digit it emits and the carry it passes on. */
  lemma AddStep(xs: seq<int>, ys: seq<int>, i: int, j: int, carry: int)
    requires 0 <= i <= |xs| && 0 <= j <= |ys| && (i < |xs| || j < |ys| || carry > 0)
    ensures var total := DigitAt(xs, i) + DigitAt(ys, j) + carry;
      AddDigits(xs[i..], ys[j..], carry)
      == [JsRem(total, 10)] + AddDigits(xs[After(xs, i)..], ys[After(ys, j)..], total / 10)
  {
    HeadTailAt(xs, i);
    HeadTailAt(ys, j);
    AddOnce(xs[i..], ys[j..], carry);
  }

  lemma AddOnce(a: seq<int>, b: seq<int>, carry: int)
    requires a != [] || b != [] || carry > 0
    ensures var sum := Head(a) + Head(b) + carry;
      AddDigits(a, b, carry) == [JsRem(sum, 10)] + AddDigits(Tail(a), Tail(b), sum / 10)
  {
  }

  /** Reading position `i` of `xs` is taking the head of its suffix from `i`; moving on is taking the tail. */
  lemma HeadTailAt(xs: seq<int>, i: int)
    requires 0 <= i <= |xs|
    ensures Head(xs[i..]) == DigitAt(xs, i) && Tail(xs[i..]) == xs[After(xs, i)..]
    ensures (xs[i..] == []) == (i == |xs|)
  {
    if i < |xs| {
      assert Tail(xs[i..]) == xs[i + 1..];
    }
  }

  /**
   * The digits the loop still has to produce once it has read the first `i`
   * digits of `xs` and the first `j` of `ys` and holds `carry`: the loop's own
   * recursion, by position.
   */
  function AddFrom(xs: seq<int>, ys: seq<int>, i: nat, j: nat, carry: int): seq<int>
    requires i <= |xs| && j <= |ys|
    decreases |xs| - i + |ys| - j, if carry > 0 then carry else 0
  {
    if i >= |xs| && j >= |ys| && carry <= 0 then []
    else
      var total := DigitAt(xs, i) + DigitAt(ys, j) + carry;
      [JsRem(total, 10)] + AddFrom(xs, ys, After(xs, i), After(ys, j), total / 10)
  }

  /** Reading by position agrees with the head-and-tail definition. */
  lemma {:induction false} AddFromDigits(xs: seq<int>, ys: seq<int>, i: nat, j: nat, carry: int)
    requires i <= |xs| && j <= |ys|
    ensures AddFrom(xs, ys, i, j, carry) == AddDigits(xs[i..], ys[j..], carry)
    decreases |xs| - i + |ys| - j, if carry > 0 then carry else 0
  {
    if i < |xs| || j < |ys| || carry > 0 {
      var total := DigitAt(xs, i) + DigitAt(ys, j) + carry;
      var i', j' := After(xs, i), After(ys, j);
      calc {
        AddFrom(xs, ys, i, j, carry);
        [JsRem(total, 10)] + AddFrom(xs, ys, i', j', total / 10);
        { AddFromDigits(xs, ys, i', j', total / 10); }
        [JsRem(total, 10)] + AddDigits(xs[i'..], ys[j'..], total / 10);
        { AddStep(xs, ys, i, j, carry); }
        AddDigits(xs[i..], ys[j..], carry);
      }
    } else {
      assert xs[i..] == [] && ys[j..] == [];
    }
  }

  /** The end of a chain of distinct nodes is none of its earlier nodes. */
  lemma DistinctLast(dummy: Node, s: seq<Node>)
    requires Distinct(s)
    ensures forall k :: 0 <= k < |s| - 1 ==> s[k] != LastOf(dummy, s)
  {
  }

  /**
   * `addTwoNumbers`: build a fresh list of the digit sums with carry,
   * reading both input lists without changing them.
   */
  method AddTwoNumbers(head1: Node?, head2: Node?, ghost a: seq<Node>, ghost b: seq<Node>)
    returns (head: Node?, ghost sum: seq<Node>)
    requires IsList(head1, a) && IsList(head2, b)
    ensures IsList(head, sum) && Values(sum) == AddDigits(Values(a), Values(b), 0)
    ensures forall k :: 0 <= k < |sum| ==> fresh(sum[k])
  {
    var dummy := new Node(-1);
    sum := AddInto(dummy, head1, head2, a, b, Values(a), Values(b));
    ChainList(dummy, sum);
    head := dummy.next;
  }

  /**
   * The loop of `addTwoNumbers`: while either list has a digit left or a carry
   * is pending, append a fresh node holding the digit of the column's total
   * after `curr`. The appended nodes are `sum`.
   */
  method AddInto(dummy: Node, head1: Node?, head2: Node?, ghost a: seq<Node>, ghost b: seq<Node>, ghost xs: seq<int>, ghost ys: seq<int>) returns (ghost sum: seq<Node>)
    requires dummy.next == null && head1 == At(a, 0) && head2 == At(b, 0)
    requires Linked(a) && (a != [] ==> a[|a| - 1].next == null) && forall k :: 0 <= k < |a| ==> a[k] != dummy
    requires Linked(b) && (b != [] ==> b[|b| - 1].next == null) && forall k :: 0 <= k < |b| ==> b[k] != dummy
    requires |xs| == |a| && (forall k :: 0 <= k < |a| ==> a[k].value == xs[k]) && |ys| == |b| && (forall k :: 0 <= k < |b| ==> b[k].value == ys[k])
    modifies dummy
    ensures Chain(dummy, sum) && Values(sum) == AddDigits(xs, ys, 0)
    ensures forall k :: 0 <= k < |sum| ==> fresh(sum[k])
  {
    var curr: Node := dummy;
    var carry := 0;
    var h1, h2 := head1, head2;
    ghost var i, j := 0, 0;
    ghost var digits: seq<int> := [];
    ghost var whole := AddFrom(xs, ys, 0, 0, 0);
    sum := [];
    while h1 != null || h2 != null || carry > 0
      invariant 0 <= i <= |a| && 0 <= j <= |b| && h1 == At(a, i) && h2 == At(b, j)
      invariant Chain(dummy, sum) && curr == LastOf(dummy, sum)
      invariant curr == dummy || fresh(curr)
      invariant forall k :: 0 <= k < |sum| ==> fresh(sum[k])
      invariant Values(sum) == digits
      invariant digits + AddFrom(xs, ys, i, j, carry) == whole
      decreases |a| - i + |b| - j, if carry > 0 then carry else 0
    {
      var v1 := if h1 != null then h1.value else 0;
      var v2 := if h2 != null then h2.value else 0;
      var total := v1 + v2 + carry;
      ghost var i', j' := After(a, i), After(b, j);
      AddFromStep(xs, ys, i, j, carry, total, i', j', digits, whole);
      Advance(a, i);
      Advance(b, j);
      assert h1 != curr && h2 != curr;
      carry := total / 10;
      var node := Grow(curr, JsRem(total, 10), dummy, sum);
      ValuesAppend(sum, node);
      curr := node;
      sum, digits := sum + [node], digits + [node.value];
      h1 := if h1 != null then h1.next else null;
      h2 := if h2 != null then h2.next else null;
      i, j := i', j';
    }
    AddDone(xs, ys, i, j, carry, digits);
  }

  /**
   * The nodes `sum`, hanging from `dummy` in order and ending the chain, none
   * of them twice and none of them `dummy`.
   */
  ghost predicate Chain(dummy: Node, sum: seq<Node>)
    reads dummy, sum
  {
    Distinct(sum) && (forall k :: 0 <= k < |sum| ==> sum[k] != dummy) &&
    (forall k :: 0 <= k < |sum| - 1 ==> sum[k].next == sum[k + 1]) &&
    (sum != [] ==> dummy.next == sum[0]) && LastOf(dummy, sum).next == null
  }

  lemma ChainList(dummy: Node, sum: seq<Node>)
    requires Chain(dummy, sum)
    ensures IsList(dummy.next, sum)
  {
  }

  /** One round of the loop: the digit it emits, followed by what is still owed, is what was owed. */
  lemma AddFromStep(xs: seq<int>, ys: seq<int>, i: nat, j: nat, carry: int, total: int, i': nat, j': nat, digits: seq<int>, whole: seq<int>)
    requires i <= |xs| && j <= |ys| && (i < |xs| || j < |ys| || carry > 0)
    requires total == DigitAt(xs, i) + DigitAt(ys, j) + carry && i' == After(xs, i) && j' == After(ys, j)
    requires digits + AddFrom(xs, ys, i, j, carry) == whole
    ensures i' <= |xs| && j' <= |ys|
    ensures (digits + [JsRem(total, 10)]) + AddFrom(xs, ys, i', j', total / 10) == whole
  {
    Regroup(digits, JsRem(total, 10), AddFrom(xs, ys, i', j', total / 10));
  }

  /** When the loop stops, the digits produced are the whole sum. */
  lemma AddDone(xs: seq<int>, ys: seq<int>, i: nat, j: nat, carry: int, digits: seq<int>)
    requires i == |xs| && j == |ys| && carry <= 0
    requires digits + AddFrom(xs, ys, i, j, carry) == AddFrom(xs, ys, 0, 0, 0)
    ensures digits == AddDigits(xs, ys, 0)
  {
    AddFromDigits(xs, ys, 0, 0, 0);
    assert xs[0..] == xs && ys[0..] == ys;
  }

  /** Stepping to the next node of a list (or staying at its `undefined` end) moves one position on. */
  lemma Advance(nodes: seq<Node>, i: int)
    requires Linked(nodes) && (nodes != [] ==> nodes[|nodes| - 1].next == null) && 0 <= i <= |nodes|
    ensures (if At(nodes, i) != null then At(nodes, i).next else null) == At(nodes, After(nodes, i))
  {
  }

  /** `curr.next = node; curr = curr.next` with a fresh `node` holding `digit`: the chain grows by that node. */
  method Grow(curr: Node, digit: int, ghost dummy: Node, ghost sum: seq<Node>) returns (node: Node)
    requires Chain(dummy, sum) && curr == LastOf(dummy, sum)
    modifies curr
    ensures fresh(node) && node.value == digit && Chain(dummy, sum + [node]) && LastOf(dummy, sum + [node]) == node
  {
    node := new Node(digit);
    DistinctAppend(sum, node);
    DistinctLast(dummy, sum);
    curr.next := node;
    ghost var grown := sum + [node];
    forall k | 0 <= k < |grown| - 1 ensures grown[k].next == grown[k + 1] {
      if k < |sum| - 1 {
        assert grown[k] == sum[k] && grown[k + 1] == sum[k + 1];
      } else {
        assert grown[k] == curr;
      }
    }
  }

  /** For digit lists, the sum list's number is the sum of the inputs' numbers. */
  lemma AddTwoNumbersValue(xs: seq<int>, ys: seq<int>)
    requires NonNegative(xs) && NonNegative(ys)
    ensures IsDigits(AddDigits(xs, ys, 0)) && Number(AddDigits(xs, ys, 0)) == Number(xs) + Number(ys)
  {
    AddDigitsAreDigits(xs, ys, 0);
    AddDigitsCorrect(xs, ys, 0);
  }
}
