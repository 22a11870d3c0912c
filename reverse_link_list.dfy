/**
 * Reverse a singly-linked list in place by re-pointing the `next` fields
 * of its nodes, and return the new first node.
 */
module LinkedList {
  import opened Sequences

  /** A list node: a value and the following node, or null at the end. */
  class Node {
    var val: int
    var next: Node?

    constructor (val: int, next: Node?)
      ensures this.val == val && this.next == next
    {
      this.val := val;
      this.next := next;
    }
  }

  /**
   * `nodes` is the list that starts at `head`, in order: the nodes are
   * pairwise distinct, each one's `next` is the node after it, and the
   * last one's `next` is null. Distinctness with a null end is what makes
   * the list acyclic.
   */
  ghost predicate IsList(head: Node?, nodes: seq<Node>)
    reads nodes
  {
    (forall i, j :: 0 <= i < j < |nodes| ==> nodes[i] != nodes[j]) &&
    if nodes == [] then head == null
    else
      head == nodes[0] &&
      nodes[|nodes| - 1].next == null &&
      forall i :: 0 <= i < |nodes| - 1 ==> nodes[i].next == nodes[i + 1]
  }

  /** The values stored in `nodes`, in order. */
  ghost function Vals(nodes: seq<Node>): (vs: seq<int>)
    reads nodes
  {
    seq(|nodes|, i reads nodes requires 0 <= i < |nodes| => nodes[i].val)
  }

  /**
   * The node sequence of a list is determined by its head: following `next`
   * from `head` visits exactly `nodes`, whichever description one starts from.
   */
  lemma {:induction false} IsListUnique(head: Node?, a: seq<Node>, b: seq<Node>)
    requires IsList(head, a) && IsList(head, b)
    ensures a == b
  {
    if a != [] && b != [] {
      assert a[0] == b[0];
      var rest := a[0].next;
      assert IsList(rest, a[1..]);
      assert IsList(rest, b[1..]);
      IsListUnique(rest, a[1..], b[1..]);
      assert a == [a[0]] + a[1..];
      assert b == [b[0]] + b[1..];
    }
  }

  /** The `next` fields of `nodes` are those of the list `Reverse(nodes)`. */
  lemma ReversedLinks(head: Node?, nodes: seq<Node>)
    requires |nodes| > 0 ==> head == nodes[|nodes| - 1]
    requires |nodes| == 0 ==> head == null
    requires forall i, j :: 0 <= i < j < |nodes| ==> nodes[i] != nodes[j]
    requires |nodes| > 0 ==> nodes[0].next == null
    requires forall i :: 0 < i < |nodes| ==> nodes[i].next == nodes[i - 1]
    ensures IsList(head, Reverse(nodes))
  {
  }

  /**
   * Nodes whose values are those they held in the earlier state keep the
   * earlier value sequence, and give it reversed when read in reverse order.
   */
  twostate lemma ValsKept(nodes: seq<Node>)
    requires forall i :: 0 <= i < |nodes| ==> nodes[i].val == old(nodes[i].val)
    ensures Vals(nodes) == old(Vals(nodes))
    ensures Vals(Reverse(nodes)) == Reverse(old(Vals(nodes)))
  {
    var r := Reverse(nodes);
    forall i | 0 <= i < |nodes|
      ensures Vals(r)[i] == Reverse(old(Vals(nodes)))[i]
    {
      assert r[i] == nodes[|nodes| - 1 - i];
    }
  }

  /**
   * The corrected solution: after handling the empty and the one-node list,
   * detach the old head, then walk `walker` down the rest of the list and
   * point each node back at the previous one.
   */
  method ReverseList(head: Node?, ghost nodes: seq<Node>) returns (newHead: Node?)
    requires IsList(head, nodes)
    modifies nodes
    ensures IsList(newHead, Reverse(nodes))
    ensures Vals(nodes) == old(Vals(nodes))
    ensures Vals(Reverse(nodes)) == Reverse(old(Vals(nodes)))
    ensures |nodes| <= 1 ==> newHead == head
  {
    assert |nodes| >= 2 ==> head == nodes[0] && head.next == nodes[1];
    if head == null {
      return head;
    }
    if head.next == null {
      assert |nodes| == 1;
      ReversedLinks(head, nodes);
      ValsKept(nodes);
      return head;
    }
    assert head == nodes[0] && |nodes| >= 2;
    assert forall i :: 0 < i < |nodes| ==> nodes[i] != head;
    var last := head;
    var walker := head.next;
    head.next := null;
    ghost var k := 1;
    while walker != null
      invariant 1 <= k <= |nodes|
      invariant last == nodes[k - 1]
      invariant walker == if k == |nodes| then null else nodes[k]
      invariant nodes[0].next == null
      invariant forall i :: 0 < i < k ==> nodes[i].next == nodes[i - 1]
      invariant forall i :: k <= i < |nodes| - 1 ==> nodes[i].next == nodes[i + 1]
      invariant k < |nodes| ==> nodes[|nodes| - 1].next == null
      invariant forall i :: 0 <= i < |nodes| ==> nodes[i].val == old(nodes[i].val)
      decreases |nodes| - k
    {
      assert forall i :: 0 <= i < |nodes| && i != k ==> nodes[i] != walker;
      if walker.next != null {
        var following := walker.next;
        walker.next := last;
        last := walker;
        walker := following;
      } else {
        walker.next := last;
        last := walker;
        walker := null;
      }
      k := k + 1;
    }
    ReversedLinks(last, nodes);
    ValsKept(nodes);
    newHead := last;
  }

  /**
   * The prev/curr solution: walk `curr` down the list, point each node at
   * `prev`, and move both one step on.
   */
  method ReverseListPrevCurr(head: Node?, ghost nodes: seq<Node>) returns (newHead: Node?)
    requires IsList(head, nodes)
    modifies nodes
    ensures IsList(newHead, Reverse(nodes))
    ensures Vals(nodes) == old(Vals(nodes))
    ensures Vals(Reverse(nodes)) == Reverse(old(Vals(nodes)))
    ensures |nodes| <= 1 ==> newHead == head
  {
    assert nodes != [] ==> head == nodes[0];
    var prev: Node? := null;
    var curr := head;
    ghost var k := 0;
    while curr != null
      invariant 0 <= k <= |nodes|
      invariant prev == if k == 0 then null else nodes[k - 1]
      invariant curr == if k == |nodes| then null else nodes[k]
      invariant k > 0 ==> nodes[0].next == null
      invariant forall i :: 0 < i < k ==> nodes[i].next == nodes[i - 1]
      invariant forall i :: k <= i < |nodes| - 1 ==> nodes[i].next == nodes[i + 1]
      invariant k < |nodes| ==> nodes[|nodes| - 1].next == null
      invariant forall i :: 0 <= i < |nodes| ==> nodes[i].val == old(nodes[i].val)
      decreases |nodes| - k
    {
      var nxt := curr.next;
      curr.next := prev;
      prev := curr;
      curr := nxt;
      k := k + 1;
    }
    assert k == |nodes|;
    ReversedLinks(prev, nodes);
    ValsKept(nodes);
    newHead := prev;
    assert |nodes| == 1 ==> newHead == nodes[0];
  }

  /** The list 0 -> 1 -> 2 -> 3 of the worked example, built from fresh nodes. */
  method BuildExample() returns (head: Node, ghost nodes: seq<Node>)
    ensures IsList(head, nodes) && Vals(nodes) == [0, 1, 2, 3]
    ensures fresh(nodes)
  {
    var n3 := new Node(3, null);
    var n2 := new Node(2, n3);
    var n1 := new Node(1, n2);
    head := new Node(0, n1);
    nodes := [head, n1, n2, n3];
  }

  /** The values of the worked example, reversed. */
  lemma ExampleValsReversed()
    ensures Reverse([0, 1, 2, 3]) == [3, 2, 1, 0]
  {
  }

  /** The worked example through the corrected solution: 0 -> 1 -> 2 -> 3 becomes 3 -> 2 -> 1 -> 0. */
  method ReverseListExample() returns (reversed: Node?, ghost nodes: seq<Node>)
    ensures IsList(reversed, Reverse(nodes)) && Vals(Reverse(nodes)) == [3, 2, 1, 0]
    ensures reversed != null && reversed.val == 3
    ensures reversed.next != null && reversed.next.val == 2
    ensures reversed.next.next != null && reversed.next.next.val == 1
    ensures reversed.next.next.next != null && reversed.next.next.next.val == 0
    ensures reversed.next.next.next.next == null
  {
    var head;
    head, nodes := BuildExample();
    reversed := ReverseList(head, nodes);
    ExampleValsReversed();
    ghost var r := Reverse(nodes);
    assert |r| == 4 && reversed == r[0];
    assert r[0].next == r[1] && r[1].next == r[2] && r[2].next == r[3] && r[3].next == null;
    assert r[0].val == Vals(r)[0] && r[1].val == Vals(r)[1] && r[2].val == Vals(r)[2] && r[3].val == Vals(r)[3];
  }

  /** The worked example through the prev/curr solution. */
  method ReverseListPrevCurrExample() returns (reversed: Node?, ghost nodes: seq<Node>)
    ensures IsList(reversed, Reverse(nodes)) && Vals(Reverse(nodes)) == [3, 2, 1, 0]
    ensures reversed != null && reversed.val == 3
    ensures reversed.next != null && reversed.next.val == 2
    ensures reversed.next.next != null && reversed.next.next.val == 1
    ensures reversed.next.next.next != null && reversed.next.next.next.val == 0
    ensures reversed.next.next.next.next == null
  {
    var head;
    head, nodes := BuildExample();
    reversed := ReverseListPrevCurr(head, nodes);
    ExampleValsReversed();
    ghost var r := Reverse(nodes);
    assert |r| == 4 && reversed == r[0];
    assert r[0].next == r[1] && r[1].next == r[2] && r[2].next == r[3] && r[3].next == null;
    assert r[0].val == Vals(r)[0] && r[1].val == Vals(r)[1] && r[2].val == Vals(r)[2] && r[3].val == Vals(r)[3];
  }

  /** The empty list comes back empty from both solutions. */
  method EmptyExample() returns (reversed: Node?, reversedPrevCurr: Node?)
    ensures reversed == null && reversedPrevCurr == null
  {
    reversed := ReverseList(null, []);
    reversedPrevCurr := ReverseListPrevCurr(null, []);
  }
}
