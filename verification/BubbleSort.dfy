/** test_progs/graph.c: bubble sort of a linked list by swapping data, with a shrinking end pointer. */
module BubbleSort {

  class Node {
    var data: int
    var next: Node?
    constructor (data: int, next: Node?)
      ensures this.data == data && this.next == next
    {
      this.data := data;
      this.next := next;
    }
  }

  /** The nodes are linked in this order, none twice, and the last link is null. */
  ghost predicate Chain(nodes: seq<Node>)
    reads nodes
  {
    && (forall i, j :: 0 <= i < j < |nodes| ==> nodes[i] != nodes[j])
    && (forall i :: 0 <= i < |nodes| ==> nodes[i].next == NodeAt(nodes, i + 1))
  }

  /** The i-th node; one past the end it is null. */
  ghost function NodeAt(nodes: seq<Node>, i: nat): Node? {
    if i < |nodes| then nodes[i] else null
  }

  ghost function Data(nodes: seq<Node>): (d: seq<int>)
    reads nodes
    ensures |d| == |nodes| && forall i :: 0 <= i < |d| ==> d[i] == nodes[i].data
  {
    seq(|nodes|, i requires 0 <= i < |nodes| reads nodes => nodes[i].data)
  }

  ghost predicate Sorted(d: seq<int>) {
    forall i, j :: 0 <= i < j < |d| ==> d[i] <= d[j]
  }

  /** Everything from hi on is in its final place. */
  ghost predicate Settled(d: seq<int>, hi: nat) {
    forall i, j :: 0 <= i < j && hi <= j < |d| ==> d[i] <= d[j]
  }

  /** d[at] is the largest of d[..at + 1], and a pass without a swap found that prefix in order. */
  ghost predicate Bubbled(d: seq<int>, at: nat, swapped: bool)
    requires at < |d|
  {
    && (forall i :: 0 <= i < at ==> d[i] <= d[at])
    && (!swapped ==> forall i, j :: 0 <= i < j <= at ==> d[i] <= d[j])
  }

  ghost function SwapAt(d: seq<int>, at: nat): seq<int>
    requires at + 1 < |d|
  {
    d[at := d[at + 1]][at + 1 := d[at]]
  }

  lemma SwapIsPermutation(d: seq<int>, at: nat)
    requires at + 1 < |d|
    ensures multiset(SwapAt(d, at)) == multiset(d)
  {
    var x, y := d[at], d[at + 1];
    assert d == d[..at] + [x, y] + d[at + 2..];
    assert SwapAt(d, at) == d[..at] + [y, x] + d[at + 2..];
  }

  /** One comparison of the inner loop moves the maximum of the prefix one place on. */
  lemma Advance(d: seq<int>, at: nat, hi: nat, swapped: bool)
    requires at + 1 < hi <= |d| && Settled(d, hi) && Bubbled(d, at, swapped)
    ensures d[at] > d[at + 1] ==> Settled(SwapAt(d, at), hi) && Bubbled(SwapAt(d, at), at + 1, true)
    ensures d[at] <= d[at + 1] ==> Bubbled(d, at + 1, swapped)
  {
  }

  /** The chain is data only: swapping touches no link. */
  method Swap(a: Node, b: Node, ghost nodes: seq<Node>, ghost at: nat)
    requires Chain(nodes) && at + 1 < |nodes| && a == nodes[at] && b == nodes[at + 1]
    modifies a`data, b`data
    ensures Data(nodes) == SwapAt(old(Data(nodes)), at)
  {
    var temp := a.data;
    a.data := b.data;
    b.data := temp;
  }

  /** The inner loop at node `at`, over the values m of the list. */
  ghost predicate Going(nodes: seq<Node>, m: multiset<int>, at: nat, hi: nat, swapped: bool)
    reads nodes
  {
    && Chain(nodes) && at < hi <= |nodes| && (swapped ==> at > 0)
    && Settled(Data(nodes), hi) && Bubbled(Data(nodes), at, swapped) && multiset(Data(nodes)) == m
  }

  /** The links of the node reached: its successor follows, and is the end pointer at the last open node alone. */
  lemma Links(nodes: seq<Node>, m: multiset<int>, at: nat, hi: nat, swapped: bool)
    requires Going(nodes, m, at, hi, swapped)
    ensures nodes[at].next == NodeAt(nodes, hi) <==> at == hi - 1
    ensures at < hi - 1 ==> nodes[at].next == nodes[at + 1]
  {
    hide Settled, Bubbled, Data;
    assert nodes[at].next == NodeAt(nodes, at + 1);
  }

  lemma PassEnds(nodes: seq<Node>, m: multiset<int>, hi: nat, swapped: bool)
    requires 0 < hi && Going(nodes, m, hi - 1, hi, swapped)
    ensures Chain(nodes) && Settled(Data(nodes), hi - 1) && multiset(Data(nodes)) == m
    ensures !swapped ==> Sorted(Data(nodes))
    ensures swapped ==> hi > 1
  {
    hide Settled, Bubbled, Sorted, Data, Chain;
    PrefixSettled(Data(nodes), hi, swapped);
  }

  lemma PrefixSettled(d: seq<int>, hi: nat, swapped: bool)
    requires 0 < hi <= |d| && Settled(d, hi) && Bubbled(d, hi - 1, swapped)
    ensures Settled(d, hi - 1)
    ensures !swapped ==> Sorted(d)
  {
  }

  /** The body of the inner loop, before it steps on: compare a node with its successor. */
  method Compare(a: Node, b: Node, swapped0: bool, ghost nodes: seq<Node>, ghost m: multiset<int>,
                 ghost at: nat, ghost hi: nat) returns (swapped: bool)
    requires Going(nodes, m, at, hi, swapped0) && at + 1 < hi && a == nodes[at] && b == nodes[at + 1]
    modifies nodes`data
    ensures Going(nodes, m, at + 1, hi, swapped)
  {
    hide Settled, Bubbled, Sorted, SwapAt, Data;
    swapped := swapped0;
    Advance(Data(nodes), at, hi, swapped);
    if a.data > b.data {
      SwapIsPermutation(Data(nodes), at);
      Swap(a, b, nodes, at);
      swapped := true;
    }
  }

  /** The inner loop: the maximum of the first hi nodes ends up at node hi - 1, which is returned. */
  method Pass(start: Node, lptr: Node?, ghost nodes: seq<Node>, ghost hi: nat) returns (ptr1: Node, swapped: bool)
    requires Chain(nodes) && 0 < hi <= |nodes| && start == nodes[0] && lptr == NodeAt(nodes, hi)
    requires Settled(Data(nodes), hi)
    modifies nodes`data
    ensures ptr1 == nodes[hi - 1]
    ensures Chain(nodes) && Settled(Data(nodes), hi - 1) && multiset(Data(nodes)) == multiset(old(Data(nodes)))
    ensures !swapped ==> Sorted(Data(nodes))
    ensures swapped ==> hi > 1
  {
    ghost var m, at := multiset(Data(nodes)), 0;
    assert Going(nodes, m, 0, hi, false);
    hide *;
    swapped := false;
    ptr1 := start;
    Links(nodes, m, at, hi, swapped);
    while ptr1.next != lptr
      invariant Going(nodes, m, at, hi, swapped) && at < hi <= |nodes| && ptr1 == nodes[at]
      invariant ptr1.next == lptr <==> at == hi - 1
      invariant at < hi - 1 ==> ptr1.next == nodes[at + 1]
      decreases hi - at
    {
      swapped := Compare(ptr1, ptr1.next, swapped, nodes, m, at, hi);
      ptr1 := ptr1.next;
      at := at + 1;
      Links(nodes, m, at, hi, swapped);
    }
    PassEnds(nodes, m, hi, swapped);
  }

  method BubbleSort(start: Node?, ghost nodes: seq<Node>)
    requires Chain(nodes) && start == NodeAt(nodes, 0)
    modifies nodes`data
    ensures Chain(nodes) && Sorted(Data(nodes))
    ensures multiset(Data(nodes)) == multiset(old(Data(nodes)))
  {
    var lptr: Node? := null;
    if start == null {
      return;
    }
    ghost var hi := |nodes|;
    var swapped := true;
    while swapped
      invariant Chain(nodes) && 0 <= hi <= |nodes| && lptr == NodeAt(nodes, hi)
      invariant Settled(Data(nodes), hi)
      invariant if swapped then hi > 0 else Sorted(Data(nodes))
      invariant multiset(Data(nodes)) == multiset(old(Data(nodes)))
      decreases hi, swapped
    {
      var ptr1;
      ptr1, swapped := Pass(start, lptr, nodes, hi);
      lptr := ptr1;
      hi := hi - 1;
    }
  }
}
