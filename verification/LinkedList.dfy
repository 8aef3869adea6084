/**
The kernel's doubly linked list: head, tail, an item count, and nodes linked in
both directions. `nodes` is the list from head to tail.
*/
module LinkedList {

  class Node<T> {
    var prev: Node?<T>
    var next: Node?<T>
    var data: T

    constructor (data: T)
      ensures prev == null && next == null && this.data == data
    {
      prev, next := null, null;
      this.data := data;
    }
  }

  ghost predicate Distinct<T>(nodes: seq<Node<T>>) {
    forall i, j :: 0 <= i < j < |nodes| ==> nodes[i] != nodes[j]
  }

  ghost predicate Linked<T>(nodes: seq<Node<T>>)
    reads nodes
  {
    && (nodes != [] ==> nodes[0].prev == null && nodes[|nodes| - 1].next == null)
    && (forall i, j :: 0 <= i < j < |nodes| && j == i + 1 ==> nodes[i].next == nodes[j] && nodes[j].prev == nodes[i])
  }

  ghost function DataOf<T>(nodes: seq<Node<T>>): (s: seq<T>)
    reads nodes
    ensures |s| == |nodes|
    ensures forall i :: 0 <= i < |nodes| ==> s[i] == nodes[i].data
  {
    seq(|nodes|, i requires 0 <= i < |nodes| reads nodes => nodes[i].data)
  }

  function Inserted<T>(s: seq<T>, k: nat, x: T): (r: seq<T>)
    requires k <= |s|
    ensures |r| == |s| + 1 && r[k] == x
    ensures forall i :: 0 <= i < k ==> r[i] == s[i]
    ensures forall i :: k < i < |r| ==> r[i] == s[i - 1]
  {
    s[..k] + [x] + s[k..]
  }

  function Removed<T>(s: seq<T>, k: nat): (r: seq<T>)
    requires k < |s|
    ensures |r| == |s| - 1
    ensures forall i :: 0 <= i < k ==> r[i] == s[i]
    ensures forall i :: k <= i < |r| ==> r[i] == s[i + 1]
  {
    s[..k] + s[k + 1..]
  }

  lemma InsertDistinct<T>(nodes: seq<Node<T>>, k: nat, n: Node<T>)
    requires Distinct(nodes) && k <= |nodes| && n !in nodes
    ensures Distinct(Inserted(nodes, k, n))
  {
    hide Inserted;
  }

  // The node at place k is none of the others.
  lemma BothSides<T>(nodes: seq<Node<T>>, k: nat)
    requires Distinct(nodes) && k < |nodes|
    ensures forall i :: 0 <= i < |nodes| && i != k ==> nodes[i] != nodes[k]
    ensures k > 0 ==> forall i :: 0 <= i < |nodes| && i != k - 1 ==> nodes[i] != nodes[k - 1]
  {
  }

  class List<T> {
    var head: Node?<T>
    var tail: Node?<T>
    var numItems: nat
    ghost var nodes: seq<Node<T>>

    ghost predicate Valid()
      reads this, nodes
    {
      && numItems == |nodes|
      && head == (if nodes == [] then null else nodes[0])
      && tail == (if nodes == [] then null else nodes[|nodes| - 1])
      && Distinct(nodes) && Linked(nodes)
    }

    ghost function Items(): (s: seq<T>)
      reads this, nodes
    {
      DataOf(nodes)
    }

    constructor ()
      ensures Valid() && nodes == [] && Items() == []
    {
      head, tail, numItems, nodes := null, null, 0, [];
    }

    // list_add_node: links a node that is in no list at the tail.
    method AddNode(node: Node<T>)
      requires Valid() && node !in nodes && node.prev == null && node.next == null
      modifies this, nodes, node
      ensures Valid() && nodes == Inserted(old(nodes), |old(nodes)|, node)
      ensures node.data == old(node.data) && forall n :: n in old(nodes) ==> n.data == old(n.data)
    {
      hide Inserted;
      ghost var was := nodes;
      ghost var m := |nodes|;
      nodes := Inserted(was, m, node);
      if head == null {
        head := node;
        tail := node;
      } else {
        assert tail == was[m - 1];
        node.prev := tail;
        tail.next := node;
        tail := node;
      }
      numItems := numItems + 1;
    }

    method Add(data: T) returns (n: Node<T>)
      requires Valid()
      modifies this, nodes
      ensures Valid() && fresh(n) && nodes == Inserted(old(nodes), |old(nodes)|, n)
      ensures Items() == old(Items()) + [data]
    {
      hide Inserted, Distinct, Linked;
      n := new Node(data);
      AddNode(n);
    }

    /** Inserts in front of the node at place k, or at the tail when there is none (k is the length). */
    method InsertBefore(node: Node?<T>, data: T, ghost k: nat) returns (n: Node<T>)
      requires Valid() && k <= |nodes| && node == (if k == |nodes| then null else nodes[k])
      modifies this, nodes
      ensures Valid() && fresh(n) && nodes == Inserted(old(nodes), k, n)
      ensures Items() == Inserted(old(Items()), k, data)
    {
      hide Inserted, Distinct, Linked;
      n := new Node(data);
      if node == null {
        AddNode(n);
      } else {
        LinkBefore(node, n, k);
      }
    }

    method LinkBefore(node: Node<T>, n: Node<T>, ghost k: nat)
      requires Valid() && k < |nodes| && node == nodes[k] && n !in nodes
      modifies this, nodes, n
      ensures Valid() && nodes == Inserted(old(nodes), k, n)
      ensures n.data == old(n.data) && forall m :: m in old(nodes) ==> m.data == old(m.data)
    {
      InsertDistinct(nodes, k, n);
      hide Inserted, Distinct;
      ghost var was := nodes;
      assert k > 0 ==> was[k - 1].next == was[k] && was[k].prev == was[k - 1];
      BothSides(was, k);
      nodes := Inserted(was, k, n);
      if node.prev != null {
        node.prev.next := n;
      } else {
        head := n;
      }
      n.prev := node.prev;
      n.next := node;
      node.prev := n;
      numItems := numItems + 1;
      forall i, j | 0 <= i < j < |nodes| && j == i + 1
        ensures nodes[i].next == nodes[j] && nodes[j].prev == nodes[i]
      {
        if j < k {
          assert nodes[i] == was[i] && nodes[j] == was[j];
        } else if i > k {
          assert nodes[i] == was[i - 1] && nodes[j] == was[j - 1];
        }
      }
    }

    /** Unlinks the node at place k. */
    method Del(node: Node<T>, ghost k: nat)
      requires Valid() && k < |nodes| && nodes[k] == node
      modifies this, nodes
      ensures Valid() && nodes == Removed(old(nodes), k)
      ensures Items() == Removed(old(Items()), k)
    {
      hide Removed;
      ghost var was := nodes;
      assert k > 0 ==> was[k - 1].next == was[k] && was[k].prev == was[k - 1];
      assert k + 1 < |was| ==> was[k].next == was[k + 1] && was[k + 1].prev == was[k];
      nodes := Removed(was, k);
      var prev, next := node.prev, node.next;
      if prev != null {
        prev.next := next;
      } else {
        head := next;
      }
      if next != null {
        next.prev := prev;
      } else {
        tail := prev;
      }
      numItems := numItems - 1;
    }
  }
}
