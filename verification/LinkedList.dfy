// The singly linked list, relinked in place.
module LinkedLists {
  import opened Common
  import opened ListSpec

  class ListNode<T> {
    var data: T
    var next: ListNode?<T>

    constructor (x: T)
      ensures data == x && next == null
    {
      data, next := x, null;
    }
  }

  // The i-th node of a chain, null past its end.
  ghost function Nth<T>(nodes: seq<ListNode<T>>, i: int): ListNode?<T>
  {
    if 0 <= i < |nodes| then nodes[i] else null
  }

  lemma NthSplice<T>(nodes: seq<ListNode<T>>, index: nat, node: ListNode<T>)
    requires index <= |nodes|
    ensures forall i: int {:trigger Nth(Splice(nodes, index, node), i)} :: Nth(Splice(nodes, index, node), i) ==
              if i < index then Nth(nodes, i) else if i == index then node else Nth(nodes, i - 1)
  {
    SpliceItems(nodes, index, node);
  }

  lemma NthWithout<T>(nodes: seq<ListNode<T>>, index: nat)
    requires index < |nodes|
    ensures forall i: int {:trigger Nth(Without(nodes, index), i)} ::
              Nth(Without(nodes, index), i) == if i < index then Nth(nodes, i) else Nth(nodes, i + 1)
  {
    WithoutItems(nodes, index);
  }

  class LinkedList<T> {
    var head: ListNode?<T>
    var length: nat
    ghost var nodes: seq<ListNode<T>>  // the chain from head
    ghost var contents: seq<T>         // the data along the chain
    ghost var blocks: int              // heap blocks allocated and not yet released

    ghost predicate Valid()
      reads this, nodes
    {
      length == |nodes| && blocks == 2 * length + 1 && Linked()
    }

    ghost predicate Linked()
      reads this, nodes
    {
      && |nodes| == |contents|
      && head == Nth(nodes, 0)
      && (forall i {:trigger nodes[i].next} | 0 <= i < |nodes| :: nodes[i].next == Nth(nodes, i + 1))
      && (forall i {:trigger nodes[i].data} | 0 <= i < |nodes| :: nodes[i].data == contents[i])
      && Distinct(nodes)
    }

    ghost function Repr(): set<object>
      reads this
    {
      set n | n in nodes
    }

    constructor ()
      ensures Valid() && nodes == [] && contents == []
    {
      head, length := null, 0;
      nodes, contents, blocks := [], [], 1;
    }

    // The node at an index, reached by counting from head.
    method Walk(index: nat) returns (node: ListNode<T>)
      requires Valid() && index < length
      ensures node == nodes[index]
    {
      node := head;
      for i := 0 to index
        invariant node == nodes[i]
      {
        node := node.next;
      }
    }

    method InsertAt(index: nat, x: T, alloc: Alloc) returns (status: int)
      requires Valid()
      modifies this, Repr()
      ensures Valid() && fresh(Repr() - old(Repr()))
      ensures contents == Apply(old(contents), Op.InsertAt(index, x, alloc)).0
      ensures status == Apply(old(contents), Op.InsertAt(index, x, alloc)).1.status
      ensures status == if index <= |old(contents)| && alloc.nodeOk && alloc.dataOk then 0 else -1
      ensures status == 0 ==> InsertedAt(old(contents), index, x, contents)
      ensures status != 0 ==> contents == old(contents)
    {
      hide Splice, Distinct, Nth;
      if index > length { return -1; }
      if !alloc.nodeOk { return -1; }
      blocks := blocks + 1;
      if !alloc.dataOk {
        blocks := blocks - 1;
        return -1;
      }
      blocks := blocks + 1;
      var node := new ListNode(x);
      SpliceItems(nodes, index, node);
      NthSplice(nodes, index, node);
      SpliceItems(contents, index, x);
      Link(index, node);
      length := length + 1;
      nodes, contents := Splice(nodes, index, node), Splice(contents, index, x);
      status := 0;
    }

    // Put a fresh node into the chain in front of position index.
    method Link(index: nat, node: ListNode<T>)
      requires Linked() && index <= |nodes| && node !in nodes
      modifies this`head, nodes, node
      ensures head == if index == 0 then node else old(head)
      ensures node.next == Nth(nodes, index) && node.data == old(node.data)
      ensures forall i {:trigger nodes[i].next} | 0 <= i < |nodes| ::
                nodes[i].next == if i + 1 == index then node else Nth(nodes, i + 1)
      ensures forall i {:trigger nodes[i].data} | 0 <= i < |nodes| :: nodes[i].data == contents[i]
    {
      if index == 0 {
        node.next := head;
        head := node;
      } else {
        var prev := head;
        for i := 0 to index - 1
          invariant prev == nodes[i]
        {
          prev := prev.next;
        }
        node.next := prev.next;
        prev.next := node;
      }
    }

    method Append(x: T, alloc: Alloc) returns (status: int)
      requires Valid()
      modifies this, Repr()
      ensures Valid() && fresh(Repr() - old(Repr()))
      ensures contents == Apply(old(contents), Op.Append(x, alloc)).0
      ensures status == Apply(old(contents), Op.Append(x, alloc)).1.status
      ensures status == if alloc.nodeOk && alloc.dataOk then 0 else -1
      ensures contents == if status == 0 then old(contents) + [x] else old(contents)
    {
      status := InsertAt(length, x, alloc);
    }

    method Prepend(x: T, alloc: Alloc) returns (status: int)
      requires Valid()
      modifies this, Repr()
      ensures Valid() && fresh(Repr() - old(Repr()))
      ensures contents == Apply(old(contents), Op.Prepend(x, alloc)).0
      ensures status == Apply(old(contents), Op.Prepend(x, alloc)).1.status
      ensures status == if alloc.nodeOk && alloc.dataOk then 0 else -1
      ensures contents == if status == 0 then [x] + old(contents) else old(contents)
    {
      status := InsertAt(0, x, alloc);
    }

    method RemoveAt(index: nat) returns (out: Out<T>)
      requires Valid()
      modifies this, Repr()
      ensures Valid() && Repr() <= old(Repr())
      ensures (contents, out) == Apply(old(contents), Op.RemoveAt(index))
      ensures out == if index < |old(contents)| then Out(0, Some(old(contents)[index])) else Out(-1, None)
      ensures index < |old(contents)| ==> RemovedAt(old(contents), index, contents)
      ensures index >= |old(contents)| ==> contents == old(contents)
    {
      hide Without, Distinct, Nth;
      if index >= length { return Out(-1, None); }
      WithoutItems(nodes, index);
      NthWithout(nodes, index);
      WithoutItems(contents, index);
      var toRemove := Unlink(index);
      out := Out(0, Some(toRemove.data));
      blocks := blocks - 2;
      length := length - 1;
      nodes, contents := Without(nodes, index), Without(contents, index);
    }

    // Take the node at position index out of the chain.
    method Unlink(index: nat) returns (node: ListNode<T>)
      requires Linked() && index < |nodes|
      modifies this`head, nodes
      ensures node == nodes[index] && node.data == contents[index]
      ensures head == if index == 0 then Nth(nodes, 1) else old(head)
      ensures forall i {:trigger nodes[i].next} | 0 <= i < |nodes| ::
                nodes[i].next == if i + 1 == index then Nth(nodes, i + 2) else Nth(nodes, i + 1)
      ensures forall i {:trigger nodes[i].data} | 0 <= i < |nodes| :: nodes[i].data == contents[i]
    {
      if index == 0 {
        node := head;
        head := node.next;
      } else {
        var prev := head;
        for i := 0 to index - 1
          invariant prev == nodes[i]
        {
          prev := prev.next;
        }
        node := prev.next;
        prev.next := node.next;
      }
    }

    method GetAt(index: nat) returns (out: Out<T>)
      requires Valid()
      ensures (contents, out) == Apply(contents, Op.GetAt(index))
      ensures out == if index < |contents| then Out(0, Some(contents[index])) else Out(-1, None)
    {
      if index >= length { return Out(-1, None); }
      var node := Walk(index);
      out := Out(0, Some(node.data));
    }

    method Clear() returns (status: int)
      requires Valid()
      modifies this
      ensures Valid() && nodes == []
      ensures contents == [] && status == 0
    {
      var current := head;
      ghost var released := 0;
      while current != null
        invariant released <= |nodes| && current == Nth(nodes, released)
        invariant nodes == old(nodes) && blocks == 2 * (|nodes| - released) + 1
        invariant forall i {:trigger nodes[i].next} | 0 <= i < |nodes| :: nodes[i].next == Nth(nodes, i + 1)
        decreases |nodes| - released
      {
        var next := current.next;
        blocks := blocks - 2;
        current := next;
        released := released + 1;
      }
      head, length := null, 0;
      nodes, contents := [], [];
      status := 0;
    }
  }
}
