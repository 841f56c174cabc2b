// The two lists cannot be told apart: whatever operations are performed, with the
// same allocation outcomes, they answer alike and hold the same data.
module ListEquivalence {
  import opened Common
  import opened ListSpec
  import opened LinkedLists
  import opened DoublyLinkedLists

  method DoSingly<T>(l: LinkedList<T>, op: Op<T>) returns (out: Out<T>)
    requires l.Valid()
    modifies l, l.Repr()
    ensures l.Valid() && fresh(l.Repr() - old(l.Repr()))
    ensures (l.contents, out) == Apply(old(l.contents), op)
  {
    match op {
      case InsertAt(index, x, alloc) => var s := l.InsertAt(index, x, alloc); out := Out(s, None);
      case Append(x, alloc) => var s := l.Append(x, alloc); out := Out(s, None);
      case Prepend(x, alloc) => var s := l.Prepend(x, alloc); out := Out(s, None);
      case RemoveAt(index) => out := l.RemoveAt(index);
      case GetAt(index) => out := l.GetAt(index);
      case Clear => var s := l.Clear(); out := Out(s, None);
    }
  }

  method DoDoubly<T>(l: DoublyLinkedList<T>, op: Op<T>) returns (out: Out<T>)
    requires l.Valid()
    modifies l, l.Repr()
    ensures l.Valid() && fresh(l.Repr() - old(l.Repr()))
    ensures (l.contents, out) == Apply(old(l.contents), op)
  {
    match op {
      case InsertAt(index, x, alloc) => var s := l.InsertAt(index, x, alloc); out := Out(s, None);
      case Append(x, alloc) => var s := l.Append(x, alloc); out := Out(s, None);
      case Prepend(x, alloc) => var s := l.Prepend(x, alloc); out := Out(s, None);
      case RemoveAt(index) => out := l.RemoveAt(index);
      case GetAt(index) => out := l.GetAt(index);
      case Clear => var s := l.Clear(); out := Out(s, None);
    }
  }

  method RunSingly<T>(l: LinkedList<T>, ops: seq<Op<T>>) returns (outs: seq<Out<T>>)
    requires l.Valid()
    modifies l, l.Repr()
    ensures l.Valid()
    ensures (l.contents, outs) == Run(old(l.contents), ops)
  {
    outs := [];
    for k := 0 to |ops|
      invariant l.Valid() && fresh(l.Repr() - old(l.Repr()))
      invariant (l.contents, outs) == Run(old(l.contents), ops[..k])
    {
      assert ops[..k + 1][..k] == ops[..k];
      var out := DoSingly(l, ops[k]);
      outs := outs + [out];
    }
    assert ops[..|ops|] == ops;
  }

  method RunDoubly<T>(l: DoublyLinkedList<T>, ops: seq<Op<T>>) returns (outs: seq<Out<T>>)
    requires l.Valid()
    modifies l, l.Repr()
    ensures l.Valid()
    ensures (l.contents, outs) == Run(old(l.contents), ops)
  {
    outs := [];
    for k := 0 to |ops|
      invariant l.Valid() && fresh(l.Repr() - old(l.Repr()))
      invariant (l.contents, outs) == Run(old(l.contents), ops[..k])
    {
      assert ops[..k + 1][..k] == ops[..k];
      var out := DoDoubly(l, ops[k]);
      outs := outs + [out];
    }
    assert ops[..|ops|] == ops;
  }

  // Perform the same operations on a new list of either kind: the answers agree, and so
  // do the final data and the number of heap blocks still held; and each answer is what
  // its call means for the contents at that point.
  method RunBoth<T>(ops: seq<Op<T>>)
    returns (singly: seq<Out<T>>, doubly: seq<Out<T>>, l: LinkedList<T>, d: DoublyLinkedList<T>,
             ghost trail: seq<seq<T>>)
    ensures singly == doubly == Run([], ops).1
    ensures l.Valid() && d.Valid() && l.contents == d.contents == Run([], ops).0
    ensures l.blocks == d.blocks == 2 * |Run([], ops).0| + 1
    ensures Follows(trail, ops, singly) && trail[0] == [] && trail[|ops|] == l.contents
  {
    l := new LinkedList<T>();
    d := new DoublyLinkedList<T>();
    singly := RunSingly(l, ops);
    doubly := RunDoubly(d, ops);
    trail := RunFollows<T>([], ops);
  }
}
