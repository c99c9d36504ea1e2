/**
 * The singly linked list of lab02/src/linked_list.py: nodes holding data and
 * a next reference, and a list object that keeps head, tail and size fields
 * up to date as elements are added at either end and removed from the front.
 */
module LinkedLists {
  import opened Wrappers

  /** A list node: its data and the node after it. */
  class Node<T> {
    var data: T
    var next: Node?<T>

    constructor(data: T)
      ensures this.data == data && next == null
    {
      this.data := data;
      next := null;
    }
  }

  class LinkedList<T> {
    var head: Node?<T>
    var tail: Node?<T>
    var size: int

    /** The nodes reachable from head, in order. */
    ghost var Nodes: seq<Node<T>>
    /** The data of those nodes: what traversal() returns. */
    ghost var Contents: seq<T>
    ghost var Repr: set<object>

    /** head and tail are the first and last of the chained nodes (both None
        for an empty list), the chain ends at tail, no node occurs twice, and
        size counts the nodes. */
    ghost predicate Valid()
      reads this, Repr
    {
      && this in Repr
      && (forall i :: 0 <= i < |Nodes| ==> Nodes[i] in Repr)
      && |Contents| == |Nodes| && size == |Nodes|
      && (forall i :: 0 <= i < |Nodes| ==> Nodes[i].data == Contents[i])
      && (forall i :: 0 <= i < |Nodes| - 1 ==> Nodes[i].next == Nodes[i + 1])
      && (forall i, j :: 0 <= i < j < |Nodes| ==> Nodes[i] != Nodes[j])
      && (Nodes == [] ==> head == null && tail == null)
      && (Nodes != [] ==> head == Nodes[0] && tail == Nodes[|Nodes| - 1] && tail.next == null)
    }

    /** A new list: no head, no tail, size 0. */
    constructor()
      ensures Valid() && fresh(Repr)
      ensures Contents == [] && head == null && tail == null && size == 0
    {
      head, tail, size := null, null, 0;
      Nodes, Contents := [], [];
      Repr := {this};
    }

    /** insert_at_start(data): a new node in front of head (and also the tail
        when the list was empty); size grows by one. */
    method InsertAtStart(data: T)
      requires Valid()
      modifies this
      ensures Valid() && fresh(Repr - old(Repr))
      ensures Contents == [data] + old(Contents)
      ensures size == old(size) + 1
      ensures head != null && head.data == data
      ensures old(head) == null ==> tail == head
      ensures old(head) != null ==> tail == old(tail)
    {
      var node := new Node(data);
      if head == null {
        head := node;
        tail := node;
      } else {
        node.next := head;
        head := node;
      }
      size := size + 1;
      Nodes := [node] + Nodes;
      Contents := [data] + Contents;
      Repr := Repr + {node};
    }

    /** insert_at_end(data): the new node is linked after tail (or becomes
        head as well when the list was empty) and is the new tail; size grows
        by one. */
    method InsertAtEnd(data: T)
      requires Valid()
      modifies this, tail
      ensures Valid() && fresh(Repr - old(Repr))
      ensures Contents == old(Contents) + [data]
      ensures size == old(size) + 1
      ensures tail != null && tail.data == data && fresh(tail)
      ensures old(head) != null ==> head == old(head)
    {
      var node := new Node(data);
      if head == null {
        head := node;
        tail := node;
      } else {
        tail.next := node;
        tail := node;
      }
      size := size + 1;
      Nodes := Nodes + [node];
      Contents := Contents + [data];
      Repr := Repr + {node};
    }

    /** delete_from_start(): None on an empty list, which is left as it is;
        otherwise the first element, with head moved to the next node (or head
        and tail cleared when the list held one node) and size one less. */
    method DeleteFromStart() returns (data: Option<T>)
      requires Valid()
      modifies this
      ensures Valid() && Repr == old(Repr)
      ensures old(Contents) == [] ==> data == None && Contents == [] && size == 0
      ensures old(Contents) != [] ==>
        data == Some(old(Contents)[0]) && Contents == old(Contents)[1..] && size == old(size) - 1
      ensures |old(Contents)| == 1 ==> head == null && tail == null
    {
      if head == null {
        return None;
      }
      data := Some(head.data);
      if head == tail {
        assert |Nodes| == 1;
        head := null;
        tail := null;
      } else {
        head := head.next;
      }
      size := size - 1;
      Nodes := Nodes[1..];
      Contents := Contents[1..];
    }

    /** traversal(): follows next from head and collects every node's data;
        the list is not changed. */
    method Traversal() returns (elements: seq<T>)
      requires Valid()
      ensures elements == Contents
    {
      elements := [];
      var current := head;
      ghost var i := 0;
      while current != null
        invariant 0 <= i <= |Nodes|
        invariant current == if i < |Nodes| then Nodes[i] else null
        invariant elements == Contents[..i]
        decreases |Nodes| - i
      {
        elements := elements + [current.data];
        current := current.next;
        i := i + 1;
      }
      assert Contents[..|Nodes|] == Contents;
    }

    /** is_empty(): whether head is None. */
    predicate IsEmpty()
      requires Valid()
      reads this, Repr
      ensures IsEmpty() <==> Contents == []
      ensures IsEmpty() <==> size == 0
    {
      head == null
    }
  }

  /** A session with the list: the traversal after each step is what the
      list operations promise. */
  method LinkedListDemo() returns (first: seq<int>, second: seq<int>, removed: Option<int>, last: Option<int>)
    ensures first == [0, 1, 2]
    ensures removed == Some(0) && second == [1, 2]
    ensures last == None
  {
    var list := new LinkedList<int>();
    list.InsertAtEnd(1);
    list.InsertAtEnd(2);
    list.InsertAtStart(0);
    assert list.Contents == [0, 1, 2];
    first := list.Traversal();
    removed := list.DeleteFromStart();
    assert list.Contents == [1, 2];
    second := list.Traversal();
    var a := list.DeleteFromStart();
    var b := list.DeleteFromStart();
    assert list.Contents == [];
    last := list.DeleteFromStart();
  }
}
