/**
 * The singly linked lists of the program, which both grow and shrink at the head: the calls in progress, and the
 * libraries whose symbols are known.
 */
module LinkedList {
  import opened Wrappers

  class Node<T> {
    const value: T
    var next: Node?<T>

    constructor (value: T)
      ensures this.value == value && next == null
    {
      this.value := value;
      next := null;
    }
  }

  ghost function Values<T>(nodes: seq<Node<T>>): (s: seq<T>)
    ensures |s| == |nodes|
    ensures forall i :: 0 <= i < |s| ==> s[i] == nodes[i].value
  {
    if nodes == [] then [] else [nodes[0].value] + Values(nodes[1..])
  }

  /** The i-th node, or null past the end. */
  ghost function At<T>(nodes: seq<Node<T>>, i: nat): Node?<T> {
    if i < |nodes| then nodes[i] else null
  }

  /** Every node points at the one after it, the last at none. */
  ghost predicate Chained<T>(nodes: seq<Node<T>>)
    reads nodes
  {
    forall i :: 0 <= i < |nodes| ==> nodes[i].next == At(nodes, i + 1)
  }

  lemma ChainedCons<T>(n: Node<T>, nodes: seq<Node<T>>)
    requires Chained(nodes) && n.next == At(nodes, 0)
    ensures Chained([n] + nodes)
  {
    var all := [n] + nodes;
    forall i | 0 <= i < |all|
      ensures all[i].next == At(all, i + 1)
    {
      if i > 0 {
        assert all[i] == nodes[i - 1] && At(all, i + 1) == At(nodes, i);
      }
    }
  }

  lemma ChainedRest<T>(nodes: seq<Node<T>>)
    requires Chained(nodes) && nodes != []
    ensures Chained(nodes[1..]) && nodes[0].next == At(nodes[1..], 0)
  {
    var rest := nodes[1..];
    forall i | 0 <= i < |rest|
      ensures rest[i].next == At(rest, i + 1)
    {
      assert rest[i] == nodes[i + 1] && At(rest, i + 1) == At(nodes, i + 2);
    }
  }

  class List<T> {
    var head: Node?<T>
    ghost var nodes: seq<Node<T>>

    ghost predicate Valid()
      reads this, nodes
    {
      head == At(nodes, 0) && Chained(nodes)
    }

    ghost function Contents(): (s: seq<T>)
      reads this
    {
      Values(nodes)
    }

    constructor ()
      ensures Valid() && Contents() == []
    {
      head := null;
      nodes := [];
    }

    /** `push_function`, `push_lib` */
    method Push(value: T)
      requires Valid()
      modifies this
      ensures Valid() && Contents() == [value] + old(Contents())
    {
      var n := new Node(value);
      if head != null {
        n.next := head;
        head := n;
      } else {
        head := n;
      }
      ChainedCons(n, nodes);
      nodes := [n] + nodes;
    }

    /** `pop_function`: nothing happens to an empty list. */
    method Pop()
      requires Valid()
      modifies this
      ensures Valid()
      ensures Contents() == if old(Contents()) == [] then [] else old(Contents())[1..]
    {
      if head == null {
        return;
      }
      ChainedRest(nodes);
      head := head.next;
      nodes := nodes[1..];
    }

    /** `get_function` */
    method First() returns (value: Option<T>)
      requires Valid()
      ensures value == if Contents() == [] then None else Some(Contents()[0])
    {
      value := if head == null then None else Some(head.value);
    }
  }
}
