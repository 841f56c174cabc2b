// The doubly linked list, relinked in place.
module DoublyLinkedLists {
  import opened Common
  import opened ListSpec

  class DListNode<T> {
    var data: T
    var next: DListNode?<T>
    var prev: DListNode?<T>

    constructor (x: T)
      ensures data == x && next == null && prev == null
    {
      data, next, prev := x, null, null;
    }
  }

  // The i-th node of a chain, null beyond either end.
  ghost function Nth<T>(nodes: seq<DListNode<T>>, i: int): DListNode?<T>
  {
    if 0 <= i < |nodes| then nodes[i] else null
  }

  lemma NthSplice<T>(nodes: seq<DListNode<T>>, index: nat, node: DListNode<T>)
    requires index <= |nodes|
    ensures forall i: int {:trigger Nth(Splice(nodes, index, node), i)} :: Nth(Splice(nodes, index, node), i) ==
              if i < index then Nth(nodes, i) else if i == index then node else Nth(nodes, i - 1)
  {
    SpliceItems(nodes, index, node);
  }

  lemma NthWithout<T>(nodes: seq<DListNode<T>>, index: nat)
    requires index < |nodes|
    ensures forall i: int {:trigger Nth(Without(nodes, index), i)} ::
              Nth(Without(nodes, index), i) == if i < index then Nth(nodes, i) else Nth(nodes, i + 1)
  {
    WithoutItems(nodes, index);
  }

  class DoublyLinkedList<T> {
    var head: DListNode?<T>
    var tail: DListNode?<T>
    var length: nat
    ghost var nodes: seq<DListNode<T>>  // the chain from head to tail
    ghost var contents: seq<T>          // the data along the chain
    ghost var blocks: int               // heap blocks allocated and not yet released

    ghost predicate Valid()
      reads this, nodes
    {
      length == |nodes| && blocks == 2 * length + 1 && Linked()
    }

    ghost predicate Linked()
      reads this, nodes
    {
      && |nodes| == |contents|
      && head == Nth(nodes, 0)
      && tail == Nth(nodes, |nodes| - 1)
      && (forall i {:trigger nodes[i].next} | 0 <= i < |nodes| :: nodes[i].next == Nth(nodes, i + 1))
      && (forall i {:trigger nodes[i].prev} | 0 <= i < |nodes| :: nodes[i].prev == Nth(nodes, i - 1))
      && (forall i {:trigger nodes[i].data} | 0 <= i < |nodes| :: nodes[i].data == contents[i])
      && Distinct(nodes)
    }

    ghost function Repr(): set<object>
      reads this
    {
      set n | n in nodes
    }

    constructor ()
      ensures Valid() && nodes == [] && contents == []
    {
      head, tail, length := null, null, 0;
      nodes, contents, blocks := [], [], 1;
    }

    method InsertAt(index: nat, x: T, alloc: Alloc) returns (status: int)
      requires Valid()
      modifies this, Repr()
      ensures Valid() && fresh(Repr() - old(Repr()))
      ensures contents == Apply(old(contents), Op.InsertAt(index, x, alloc)).0
      ensures status == Apply(old(contents), Op.InsertAt(index, x, alloc)).1.status
      ensures status == if index <= |old(contents)| && alloc.nodeOk && alloc.dataOk then 0 else -1
      ensures status == 0 ==> InsertedAt(old(contents), index, x, contents)
      ensures status != 0 ==> contents == old(contents)
    {
      hide Splice, Distinct, Nth;
      if index > length { return -1; }
      var created := CreateNode(x, alloc);
      if created == null { return -1; }
      var node: DListNode<T> := created;
      SpliceItems(nodes, index, node);
      NthSplice(nodes, index, node);
      SpliceItems(contents, index, x);
      Link(index, node);
      length := length + 1;
      nodes, contents := Splice(nodes, index, node), Splice(contents, index, x);
      status := 0;
    }

    method CreateNode(x: T, alloc: Alloc) returns (node: DListNode?<T>)
      modifies this`blocks
      ensures node != null <==> alloc.Ok()
      ensures node != null ==> fresh(node) && node.data == x && node.next == null && node.prev == null
      ensures blocks == old(blocks) + if node != null then 2 else 0
    {
      if !alloc.nodeOk { return null; }
      blocks := blocks + 1;
      if !alloc.dataOk {
        blocks := blocks - 1;
        return null;
      }
      blocks := blocks + 1;
      node := new DListNode(x);
    }

    // Put a fresh node into the chain in front of position index.
    method Link(index: nat, node: DListNode<T>)
      requires Linked() && length == |nodes| && index <= length && node !in nodes
      requires node.next == null && node.prev == null
      modifies this`head, this`tail, nodes, node
      ensures head == if index == 0 then node else old(head)
      ensures tail == if index == length then node else old(tail)
      ensures node.next == Nth(nodes, index) && node.prev == Nth(nodes, index - 1) && node.data == old(node.data)
      ensures forall i {:trigger nodes[i].next} | 0 <= i < |nodes| ::
                nodes[i].next == if i + 1 == index then node else Nth(nodes, i + 1)
      ensures forall i {:trigger nodes[i].prev} | 0 <= i < |nodes| ::
                nodes[i].prev == if i == index then node else Nth(nodes, i - 1)
      ensures forall i {:trigger nodes[i].data} | 0 <= i < |nodes| :: nodes[i].data == contents[i]
    {
      if length == 0 {
        head := node;
        tail := node;
      } else if index == 0 {
        DistinctAt(nodes, 0);
        node.next := head;
        head.prev := node;
        head := node;
      } else if index == length {
        DistinctAt(nodes, index - 1);
        node.prev := tail;
        tail.next := node;
        tail := node;
      } else {
        var cur := head;
        for i := 0 to index
          invariant cur == nodes[i]
        {
          cur := cur.next;
        }
        DistinctAt(nodes, index - 1);
        DistinctAt(nodes, index);
        node.next := cur;
        node.prev := cur.prev;
        cur.prev.next := node;
        cur.prev := node;
      }
    }

    method Append(x: T, alloc: Alloc) returns (status: int)
      requires Valid()
      modifies this, Repr()
      ensures Valid() && fresh(Repr() - old(Repr()))
      ensures contents == Apply(old(contents), Op.Append(x, alloc)).0
      ensures status == Apply(old(contents), Op.Append(x, alloc)).1.status
      ensures status == if alloc.nodeOk && alloc.dataOk then 0 else -1
      ensures contents == if status == 0 then old(contents) + [x] else old(contents)
    {
      status := InsertAt(length, x, alloc);
    }

    method Prepend(x: T, alloc: Alloc) returns (status: int)
      requires Valid()
      modifies this, Repr()
      ensures Valid() && fresh(Repr() - old(Repr()))
      ensures contents == Apply(old(contents), Op.Prepend(x, alloc)).0
      ensures status == Apply(old(contents), Op.Prepend(x, alloc)).1.status
      ensures status == if alloc.nodeOk && alloc.dataOk then 0 else -1
      ensures contents == if status == 0 then [x] + old(contents) else old(contents)
    {
      status := InsertAt(0, x, alloc);
    }

    method RemoveAt(index: nat) returns (out: Out<T>)
      requires Valid()
      modifies this, Repr()
      ensures Valid() && Repr() <= old(Repr())
      ensures (contents, out) == Apply(old(contents), Op.RemoveAt(index))
      ensures out == if index < |old(contents)| then Out(0, Some(old(contents)[index])) else Out(-1, None)
      ensures index < |old(contents)| ==> RemovedAt(old(contents), index, contents)
      ensures index >= |old(contents)| ==> contents == old(contents)
    {
      hide Without, Distinct, Nth;
      if index >= length { return Out(-1, None); }
      WithoutItems(nodes, index);
      NthWithout(nodes, index);
      WithoutItems(contents, index);
      var toRemove := Unlink(index);
      out := Out(0, Some(toRemove.data));
      blocks := blocks - 2;
      length := length - 1;
      nodes, contents := Without(nodes, index), Without(contents, index);
    }

    // Take the node at position index out of the chain.
    method Unlink(index: nat) returns (node: DListNode<T>)
      requires Linked() && length == |nodes| && index < length
      modifies this`head, this`tail, nodes
      ensures node == nodes[index] && node.data == contents[index]
      ensures head == if index == 0 then Nth(nodes, 1) else old(head)
      ensures tail == if index == length - 1 then Nth(nodes, index - 1) else old(tail)
      ensures forall i {:trigger nodes[i].next} | 0 <= i < |nodes| && i != index ::
                nodes[i].next == if i + 1 == index then Nth(nodes, i + 2) else Nth(nodes, i + 1)
      ensures forall i {:trigger nodes[i].prev} | 0 <= i < |nodes| && i != index ::
                nodes[i].prev == if i == index + 1 then Nth(nodes, i - 2) else Nth(nodes, i - 1)
      ensures forall i {:trigger nodes[i].data} | 0 <= i < |nodes| :: nodes[i].data == contents[i]
    {
      if index == 0 {
        node := head;
        head := node.next;
        if head != null {
          DistinctAt(nodes, 1);
          head.prev := null;
        } else {
          tail := null;
        }
      } else if index == length - 1 {
        node := tail;
        tail := node.prev;
        DistinctAt(nodes, index - 1);
        tail.next := null;
      } else {
        node := head;
        for i := 0 to index
          invariant node == nodes[i]
        {
          node := node.next;
        }
        DistinctAt(nodes, index - 1);
        DistinctAt(nodes, index + 1);
        node.prev.next := node.next;
        node.next.prev := node.prev;
      }
    }

    // The shorter way round: from head for the first half, from tail otherwise.
    method GetAt(index: nat) returns (out: Out<T>)
      requires Valid()
      ensures (contents, out) == Apply(contents, Op.GetAt(index))
      ensures out == if index < |contents| then Out(0, Some(contents[index])) else Out(-1, None)
    {
      if index >= length { return Out(-1, None); }
      var node;
      if index < length / 2 {
        node := head;
        for i := 0 to index
          invariant node == nodes[i]
        {
          node := node.next;
        }
      } else {
        node := tail;
        for i := length - 1 downto index
          invariant node == nodes[i]
        {
          node := node.prev;
        }
      }
      out := Out(0, Some(node.data));
    }

    method Clear() returns (status: int)
      requires Valid()
      modifies this
      ensures Valid() && nodes == []
      ensures contents == [] && status == 0
    {
      var current := head;
      ghost var released := 0;
      while current != null
        invariant released <= |nodes| && current == Nth(nodes, released)
        invariant nodes == old(nodes) && blocks == 2 * (|nodes| - released) + 1
        invariant forall i {:trigger nodes[i].next} | 0 <= i < |nodes| :: nodes[i].next == Nth(nodes, i + 1)
        decreases |nodes| - released
      {
        var next := current.next;
        blocks := blocks - 2;
        current := next;
        released := released + 1;
      }
      head, tail, length := null, null, 0;
      nodes, contents := [], [];
      status := 0;
    }
  }

  // What a reader of the heap finds by following `next`, or `prev`, for up to k steps.
  ghost function WalkNext<T>(n: DListNode?<T>, k: nat, heap: set<DListNode<T>>): seq<DListNode<T>>
    reads heap
  {
    if n == null || k == 0 || n !in heap then [] else [n] + WalkNext(n.next, k - 1, heap)
  }

  ghost function WalkPrev<T>(n: DListNode?<T>, k: nat, heap: set<DListNode<T>>): seq<DListNode<T>>
    reads heap
  {
    if n == null || k == 0 || n !in heap then [] else [n] + WalkPrev(n.prev, k - 1, heap)
  }

  ghost function Heap<T>(l: DoublyLinkedList<T>): set<DListNode<T>>
    reads l
  {
    set n | n in l.nodes
  }

  lemma {:induction false} NextFrom<T>(l: DoublyLinkedList<T>, i: nat, k: nat)
    requires l.Valid() && i <= l.length <= i + k
    ensures WalkNext(Nth(l.nodes, i), k, Heap(l)) == l.nodes[i..]
    decreases k
  {
    if i < l.length {
      assert l.nodes[i].next == Nth(l.nodes, i + 1);
      NextFrom(l, i + 1, k - 1);
      assert l.nodes[i..] == [l.nodes[i]] + l.nodes[i + 1..];
    }
  }

  lemma {:induction false} PrevFrom<T>(l: DoublyLinkedList<T>, i: nat, k: nat)
    requires l.Valid() && i <= l.length && i <= k
    ensures WalkPrev(Nth(l.nodes, i - 1), k, Heap(l)) == Reverse(l.nodes[..i])
  {
    if i > 0 {
      assert l.nodes[i - 1].prev == Nth(l.nodes, i - 2);
      PrevFrom(l, i - 1, k - 1);
      assert [l.nodes[i - 1]] + Reverse(l.nodes[..i - 1]) == Reverse(l.nodes[..i]);
    }
  }

  // The walk back from tail is the exact reverse of the walk forward from head, and
  // both see `length` nodes.
  lemma WalksMirror<T>(l: DoublyLinkedList<T>, k: nat)
    requires l.Valid() && l.length <= k
    ensures WalkPrev(l.tail, k, Heap(l)) == Reverse(WalkNext(l.head, k, Heap(l)))
    ensures |WalkNext(l.head, k, Heap(l))| == l.length
  {
    NextFrom(l, 0, k);
    PrevFrom(l, l.length, k);
    assert l.nodes[..l.length] == l.nodes == l.nodes[0..];
  }
}
