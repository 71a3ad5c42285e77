/** `std::list<std::string>`, the recency list of the cache (`access_order_`, proxy/cache.hpp:45),
    as a doubly linked list of heap nodes.  A list iterator is a reference to a node; erasing
    through it is legal only while the node is linked into this list. */
module RecencyList {

  class Node {
    const key: string
    var prev: Node?
    var next: Node?

    constructor (key: string, next: Node?)
      ensures this.key == key && this.prev == null && this.next == next
    {
      this.key := key;
      this.prev := null;
      this.next := next;
    }
  }

  function NodeKey(node: Node): string { node.key }

  class List {
    var head: Node?
    var tail: Node?
    ghost var nodes: seq<Node>

    /** The links are those of the sequence `nodes`, in which no node occurs twice. */
    ghost predicate Valid()
      reads `head, `tail, `nodes, nodes`prev, nodes`next
    {
      && (forall i, j :: 0 <= i < j < |nodes| ==> nodes[i] != nodes[j])
      && (nodes == [] ==> head == null && tail == null)
      && (nodes != [] ==> && head == nodes[0] && nodes[0].prev == null
                          && tail == nodes[|nodes| - 1] && nodes[|nodes| - 1].next == null)
      && (forall i, j :: 0 <= i < |nodes| && 0 <= j < |nodes| && j == i + 1 ==>
            nodes[i].next == nodes[j] && nodes[j].prev == nodes[i])
    }

    constructor ()
      ensures Valid() && nodes == []
    {
      head, tail, nodes := null, null, [];
    }

    predicate Empty()
      reads `head, `tail, `nodes, nodes`prev, nodes`next
      requires Valid()
      ensures Empty() <==> nodes == []
    {
      head == null
    }

    function Back(): (key: string)
      reads `head, `tail, `nodes, nodes`prev, nodes`next
      requires Valid() && nodes != []
      ensures key == nodes[|nodes| - 1].key
    {
      tail.key
    }

    /** `push_front`; the result is `begin()` afterwards. */
    method PushFront(key: string) returns (node: Node)
      requires Valid()
      modifies `head, `tail, `nodes, nodes`prev, nodes`next
      ensures Valid() && fresh(node) && node.key == key
      ensures nodes == [node] + old(nodes)
    {
      node := new Node(key, head);
      if head == null {
        tail := node;
      } else {
        head.prev := node;
      }
      head := node;
      nodes := [node] + nodes;
      assert forall i :: 0 < i < |nodes| ==> nodes[i] == old(nodes)[i - 1];
    }

    method PopBack()
      requires Valid() && nodes != []
      modifies `head, `tail, `nodes, nodes`prev, nodes`next
      ensures Valid() && nodes == old(nodes[..|nodes| - 1])
    {
      var last := tail;
      assert |nodes| > 1 ==> last.prev == nodes[|nodes| - 2];
      tail := last.prev;
      if tail == null {
        head := null;
      } else {
        tail.next := null;
      }
      nodes := nodes[..|nodes| - 1];
    }

    /** `erase(iterator)`: unlinks the node without searching for it. */
    method Erase(node: Node, ghost i: nat)
      requires Valid() && i < |nodes| && nodes[i] == node
      modifies `head, `tail, `nodes, nodes`prev, nodes`next
      ensures Valid() && nodes == old(nodes[..i] + nodes[i + 1..])
    {
      assert i > 0 ==> node.prev == nodes[i - 1];
      assert i < |nodes| - 1 ==> node.next == nodes[i + 1];
      if node.prev == null {
        head := node.next;
      } else {
        node.prev.next := node.next;
      }
      if node.next == null {
        tail := node.prev;
      } else {
        node.next.prev := node.prev;
      }
      nodes := nodes[..i] + nodes[i + 1..];
      assert forall j :: 0 <= j < |nodes| ==> nodes[j] == old(nodes)[if j < i then j else j + 1];
    }

    method Clear()
      modifies `head, `tail, `nodes
      ensures Valid() && nodes == []
    {
      head, tail, nodes := null, null, [];
    }
  }
}
