// Whole runs on the heap: any sequence of calls performed on a tree, a hash table or a
// queue object answers like the reference it refines.
module ContainerRuns {
  import opened Common
  import Trees = BinaryTrees
  import T = TreeSpec
  import Walks = TreeTheorems
  import Tables = HashTables
  import H = HashSpec
  import Q = QueueSpec
  import Queues = RingQueue

  // ---------------------------------------------------------------- the search tree

  method DoTree<E>(tree: Trees.BinaryTree<E>, op: Walks.Op<E>) returns (out: Walks.Out<E>)
    requires tree.Valid()
    modifies tree, Trees.Objects(tree.shape)
    ensures tree.Valid() && fresh(Trees.Objects(tree.shape) - Trees.Objects(old(tree.shape)))
    ensures (tree.model, out) == Walks.Apply(tree.compare, old(tree.model), op)
  {
    hide Trees.Objects, Trees.BinaryTree.Valid;
    Trees.Exist(tree.shape);
    match op
    case InsertOp(x, memoryOk) =>
      var status := tree.Insert(x, memoryOk);
      out := Walks.Status(status);
    case SearchOp(k) =>
      var found := tree.Search(k);
      out := Walks.Found(found);
    case RemoveOp(k) =>
      var key := new Trees.Buffer(k);
      var status := tree.Remove(key);
      out := Walks.Status(status);
    case SizeOp =>
      var n := tree.Size();
      out := Walks.Count(n);
  }

  method RunTree<E>(tree: Trees.BinaryTree<E>, ops: seq<Walks.Op<E>>) returns (outs: seq<Walks.Out<E>>)
    requires tree.Valid()
    modifies tree, Trees.Objects(tree.shape)
    ensures tree.Valid()
    ensures forall o | o in Trees.Objects(tree.shape) :: o in Trees.Objects(old(tree.shape)) || fresh(o)
    ensures (tree.model, outs) == Walks.Run(tree.compare, old(tree.model), ops)
    decreases |ops|
  {
    hide Trees.Objects, Trees.BinaryTree.Valid;
    if ops == [] { return []; }
    var out := DoTree(tree, ops[0]);
    ghost var between := Trees.Objects(tree.shape);
    assert fresh(between - Trees.Objects(old(tree.shape)));
    var rest := RunTree(tree, ops[1..]);
    outs := [out] + rest;
  }

  // On a new tree the answers are the sorted dictionary's, and the tree that results is a
  // search tree whose in-order walk is the dictionary.
  method RunNewTree<E(!new)>(compare: (E, E) -> int, ops: seq<Walks.Op<E>>)
    returns (outs: seq<Walks.Out<E>>, tree: Trees.BinaryTree<E>)
    requires T.Order(compare)
    ensures tree.Valid() && T.Bst(compare, tree.model)
    ensures (T.Inorder(tree.model), outs) == Walks.SeqRun(compare, [], ops)
  {
    tree := new Trees.BinaryTree(compare);
    outs := RunTree(tree, ops);
    Walks.RunRefines(compare, T.Leaf, ops);
  }

  // ---------------------------------------------------------------- the hash table

  method DoTable<K, V>(table: Tables.HashTable<K, V>, op: H.Op<K, V>) returns (out: H.Out<V>)
    requires table.Valid()
    modifies table`size, table`chains, table`table, table`repr, table.buckets, table.repr
    ensures table.Valid() && fresh(table.repr - old(table.repr))
    ensures (table.table, out) == H.Apply(table.keys, old(table.table), op)
  {
    match op
    case InsertOp(k, v, memory) =>
      var status := table.Insert(k, v, memory);
      out := H.Status(status);
    case SearchOp(k) =>
      var found := table.Search(k);
      out := H.Found(found);
    case RemoveOp(k) =>
      var status := table.Remove(k);
      out := H.Status(status);
    case SizeOp =>
      out := H.Out.Size(table.size);
  }

  method RunTable<K, V>(table: Tables.HashTable<K, V>, ops: seq<H.Op<K, V>>) returns (outs: seq<H.Out<V>>)
    requires table.Valid()
    modifies table`size, table`chains, table`table, table`repr, table.buckets, table.repr
    ensures table.Valid() && fresh(table.repr - old(table.repr))
    ensures (table.table, outs) == H.Run(table.keys, old(table.table), ops)
    decreases |ops|
  {
    if ops == [] { return []; }
    var out := DoTable(table, ops[0]);
    var rest := RunTable(table, ops[1..]);
    outs := [out] + rest;
  }

  // On a new table the answers are the finite map's, whatever the number of buckets.
  method RunNewTable<K(!new), V>(n: nat, keys: H.Keys<K>, ops: seq<H.Op<K, V>>)
    returns (outs: seq<H.Out<V>>, table: Tables.HashTable<K, V>)
    requires H.Lawful(keys)
    ensures table.Valid() && H.Refines(keys, table.table, H.MapRun(keys.keyEq, map[], ops).0)
    ensures outs == H.MapRun(keys.keyEq, map[], ops).1
  {
    table := new Tables.HashTable<K, V>(n, keys);
    outs := RunTable(table, ops);
    H.EmptyRefines<K, V>(keys, n);
    H.RunRefines(keys, H.Empty(n), map[], ops);
  }

  // ---------------------------------------------------------------- the queue

  method DoQueue<E(0)>(queue: Queues.Queue<E>, op: Q.Op<E>) returns (out: Q.Out<E>)
    requires queue.Valid() && (op.Enqueue? ==> queue.abs.capacity <= |op.past|)
    modifies queue, queue.data
    ensures queue.Valid() && (queue.data == old(queue.data) || fresh(queue.data))
    ensures (queue.abs, out) == Q.Apply(queue.guard, old(queue.abs), op)
  {
    match op
    case Enqueue(x, memoryOk, past) =>
      var status := queue.Enqueue(x, memoryOk, past);
      out := Q.Out(status, None);
    case Dequeue => out := queue.Dequeue();
    case Peek => out := queue.Peek();
  }

  method RunQueue<E(0)>(queue: Queues.Queue<E>, ops: seq<Q.Op<E>>) returns (outs: seq<Q.Out<E>>)
    requires queue.Valid() && Q.Described(queue.guard, queue.abs, ops)
    modifies queue, queue.data
    ensures queue.Valid() && (queue.data == old(queue.data) || fresh(queue.data))
    ensures queue.abs == Q.Run(queue.guard, old(queue.abs), ops)
    ensures outs == Q.Answers(queue.guard, old(queue.abs), ops)
    decreases |ops|
  {
    if ops == [] { return []; }
    var out := DoQueue(queue, ops[0]);
    var rest := RunQueue(queue, ops[1..]);
    outs := [out] + rest;
  }

  // On a new queue everything accepted comes out in order, if the guard asks whether the
  // contents wrap or growth happens only at front 0; and the growths together copy fewer
  // than two elements per element accepted.
  method RunNewQueue<E(0)>(capacity: nat, guard: Q.Guard, ops: seq<Q.Op<E>>)
    returns (outs: seq<Q.Out<E>>, queue: Queues.Queue<E>)
    requires Q.Described(guard, Q.New(capacity), ops)
    requires guard == Q.Shipped ==> Q.GrowsAtZero(guard, Q.New(capacity), ops)
    ensures queue.Valid() && outs == Q.Answers(guard, Q.New(capacity), ops)
    ensures Q.FirstInFirstOut(if capacity == 0 then 16 else capacity, ops, outs)
    ensures queue.abs.accepted == queue.abs.removed + queue.abs.contents
    ensures queue.abs.copied == 0 || queue.abs.copied < 2 * |queue.abs.accepted|
  {
    queue := new Queues.Queue<E>(capacity, guard);
    outs := RunQueue(queue, ops);
    Q.RunFifo(guard, Q.New(capacity), ops);
    Q.RunAmortised(guard, Q.New(capacity), ops);
    Q.NewQueueAnswers(guard, capacity, ops);
  }
}
