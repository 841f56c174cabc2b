// The search tree on the heap: nodes relinked in place, each owning a data buffer.
// A key may be passed as a pointer into the tree, as deletion itself does.
module BinaryTrees {
  import opened Common
  import opened TreeSpec

  class Buffer<T> {
    var v: T

    constructor (x: T)
      ensures v == x
    {
      v := x;
    }
  }

  class TreeNode<T> {
    const data: Buffer<T>
    var left: TreeNode?<T>
    var right: TreeNode?<T>

    constructor (data: Buffer<T>)
      ensures this.data == data && left == null && right == null
    {
      this.data, left, right := data, null, null;
    }
  }

  // Which nodes make up a tree, and how they hang together.
  datatype Shape<T> = Nil | Sub(left: Shape<T>, node: TreeNode<T>, right: Shape<T>)

  ghost function Objects<T>(sh: Shape<T>): set<object>
  {
    if sh.Nil? then {} else {sh.node, sh.node.data} + Objects(sh.left) + Objects(sh.right)
  }

  // A shape only ever mentions objects that exist, so reads of one subtree are not
  // disturbed by allocations made while working on the other.
  lemma {:induction false} Exist<T>(sh: Shape<T>)
    ensures forall o | o in Objects(sh) :: allocated(o)
  {
    if sh.Sub? {
      Exist(sh.left);
      Exist(sh.right);
    }
  }

  // No node or buffer is shared.
  ghost predicate Separate<T>(sh: Shape<T>)
  {
    sh.Sub? ==>
      && Separate(sh.left) && Separate(sh.right)
      && Objects(sh.left) !! Objects(sh.right)
      && {sh.node, sh.node.data} !! Objects(sh.left) + Objects(sh.right)
  }

  // n is the root of nodes shaped like sh that hold the tree t.
  ghost predicate Holds<T>(n: TreeNode?<T>, sh: Shape<T>, t: Tree<T>)
    reads Objects(sh)
  {
    match sh
    case Nil => n == null && t == Leaf
    case Sub(l, node, r) =>
      && n == node && t.Node? && node.data.v == t.data
      && Holds(node.left, l, t.left) && Holds(node.right, r, t.right)
  }

  ghost predicate Tidy<T>(n: TreeNode?<T>, sh: Shape<T>, t: Tree<T>)
    reads Objects(sh)
  {
    Separate(sh) && Holds(n, sh, t)
  }

  lemma EmptyIff<T>(n: TreeNode?<T>, sh: Shape<T>, t: Tree<T>)
    requires Tidy(n, sh, t)
    ensures (n == null <==> sh == Nil) && (n == null <==> t == Leaf)
    ensures n == null ==> Objects(sh) == {}
  {
  }

  // A tree taken apart at its root, and put together again.
  lemma Apart<T>(n: TreeNode<T>, sh: Shape<T>, t: Tree<T>)
    requires Tidy(n, sh, t)
    ensures sh.Sub? && t.Node? && sh.node == n && n.data.v == t.data
    ensures Tidy(n.left, sh.left, t.left) && Tidy(n.right, sh.right, t.right)
    ensures Objects(sh) == {n, n.data} + Objects(sh.left) + Objects(sh.right)
    ensures Objects(sh.left) !! Objects(sh.right) && {n, n.data} !! Objects(sh.left) + Objects(sh.right)
  {
  }

  lemma Together<T>(n: TreeNode<T>, l: Shape<T>, lt: Tree<T>, r: Shape<T>, rt: Tree<T>)
    requires Tidy(n.left, l, lt) && Tidy(n.right, r, rt)
    requires Objects(l) !! Objects(r) && {n, n.data} !! Objects(l) + Objects(r)
    ensures Tidy(n, Sub(l, n, r), Node(lt, n.data.v, rt))
    ensures Objects(Sub(l, n, r)) == {n, n.data} + Objects(l) + Objects(r)
  {
  }

  method InsertNode<T>(n: TreeNode?<T>, compare: (T, T) -> int, x: T, memoryOk: bool,
                       ghost sh: Shape<T>, ghost t: Tree<T>)
    returns (status: int, m: TreeNode?<T>, ghost sh': Shape<T>)
    requires Tidy(n, sh, t)
    modifies Objects(sh)
    ensures Tidy(m, sh', Insert(compare, t, x, memoryOk).0) && status == Insert(compare, t, x, memoryOk).1
    ensures Objects(sh) <= Objects(sh') && fresh(Objects(sh') - Objects(sh))
    decreases sh
  {
    m, sh' := n, sh;
    if n == null {
      if !memoryOk { return -1, null, Nil; }
      var data := new Buffer(x);
      m := new TreeNode(data);
      return 0, m, Sub(Nil, m, Nil);
    }
    Exist(sh);
    assert Tidy(n.left, sh.left, t.left) && Tidy(n.right, sh.right, t.right);
    var cmp := compare(x, n.data.v);
    if cmp < 0 {
      var left;
      ghost var l;
      status, left, l := InsertNode(n.left, compare, x, memoryOk, sh.left, t.left);
      n.left := left;
      sh' := Sub(l, n, sh.right);
    } else if cmp > 0 {
      var right;
      ghost var r;
      status, right, r := InsertNode(n.right, compare, x, memoryOk, sh.right, t.right);
      n.right := right;
      sh' := Sub(sh.left, n, r);
    } else {
      status := 0;
    }
  }

  method SearchNode<T>(n: TreeNode?<T>, compare: (T, T) -> int, key: T, ghost sh: Shape<T>, ghost t: Tree<T>)
    returns (r: Option<T>)
    requires Tidy(n, sh, t)
    ensures r == Search(compare, t, key)
    decreases sh
  {
    if n == null { return None; }
    var cmp := compare(key, n.data.v);
    if cmp == 0 {
      r := Some(n.data.v);
    } else if cmp < 0 {
      r := SearchNode(n.left, compare, key, sh.left, t.left);
    } else {
      r := SearchNode(n.right, compare, key, sh.right, t.right);
    }
  }

  method FindMin<T>(n: TreeNode<T>, ghost sh: Shape<T>, ghost t: Tree<T>) returns (m: TreeNode<T>)
    requires Tidy(n, sh, t)
    ensures m in Objects(sh) && m.data in Objects(sh) && m.data.v == Min(t)
  {
    m := n;
    ghost var sub, tree := sh, t;
    while m.left != null
      invariant Tidy(m, sub, tree) && Objects(sub) <= Objects(sh) && Min(tree) == Min(t)
      decreases sub
    {
      m := m.left;
      sub, tree := sub.left, tree.left;
    }
    assert Holds(m.left, sub.left, tree.left);
  }

  // One level of the deletion.
  lemma RemoveIs<T>(compare: (T, T) -> int, t: Tree<T>, k: T)
    ensures t == Leaf ==> Remove(compare, t, k) == (Leaf, -1)
    ensures t.Node? ==>
              var c := compare(k, t.data);
              var (l, r) := (Remove(compare, t.left, k), Remove(compare, t.right, k));
              && (c < 0 ==> Remove(compare, t, k) == (Node(l.0, t.data, t.right), l.1))
              && (c > 0 ==> Remove(compare, t, k) == (Node(t.left, t.data, r.0), r.1))
              && (c == 0 && t.left == Leaf ==> Remove(compare, t, k) == (t.right, 0))
              && (c == 0 && t.left != Leaf && t.right == Leaf ==> Remove(compare, t, k) == (t.left, 0))
              && (c == 0 && t.left != Leaf && t.right != Leaf ==>
                    var m := Min(t.right);
                    var s := Remove(compare, t.right, m);
                    Remove(compare, t, k) == (Node(t.left, m, s.0), s.1))
  {
  }

  // Deletion.  The key is read through a pointer that may lie inside the tree; what
  // counts is its value on entry.  Exactly one node and its buffer are given back.
  method RemoveNode<T>(n: TreeNode?<T>, compare: (T, T) -> int, key: Buffer<T>, ghost sh: Shape<T>, ghost t: Tree<T>)
    returns (status: int, m: TreeNode?<T>, ghost sh': Shape<T>, ghost freed: TreeNode?<T>)
    requires Tidy(n, sh, t)
    modifies Objects(sh)
    ensures Tidy(m, sh', Remove(compare, t, old(key.v)).0) && status == Remove(compare, t, old(key.v)).1
    ensures status == 0 <==> freed != null
    ensures freed != null ==> {freed, freed.data} <= Objects(sh) && Objects(sh') == Objects(sh) - {freed, freed.data}
    ensures freed == null ==> sh' == sh && Objects(sh') == Objects(sh)
    decreases sh, 1
  {
    hide Tidy, Objects, Remove, Min;
    m, sh', freed := n, sh, null;
    EmptyIff(n, sh, t);
    RemoveIs(compare, t, key.v);
    if n == null { return -1, null, sh, null; }
    Exist(sh);
    Apart(n, sh, t);
    EmptyIff(n.left, sh.left, t.left);
    EmptyIff(n.right, sh.right, t.right);
    var cmp := compare(key.v, n.data.v);
    if cmp < 0 {
      var left;
      ghost var l;
      status, left, l, freed := RemoveNode(n.left, compare, key, sh.left, t.left);
      n.left := left;
      Together(n, l, Remove(compare, t.left, old(key.v)).0, sh.right, t.right);
      sh' := Sub(l, n, sh.right);
    } else if cmp > 0 {
      var right;
      ghost var r;
      status, right, r, freed := RemoveNode(n.right, compare, key, sh.right, t.right);
      n.right := right;
      Together(n, sh.left, t.left, r, Remove(compare, t.right, old(key.v)).0);
      sh' := Sub(sh.left, n, r);
    } else if n.left == null {
      status, m, sh', freed := 0, n.right, sh.right, n;
    } else if n.right == null {
      status, m, sh', freed := 0, n.left, sh.left, n;
    } else {
      status, sh', freed := MoveSuccessorUp(n, compare, sh, t);
    }
  }

  // The case of two children: the successor's element is copied into the node, and the
  // right subtree is searched again for it, by a key that lies in that subtree.
  method MoveSuccessorUp<T>(n: TreeNode<T>, compare: (T, T) -> int, ghost sh: Shape<T>, ghost t: Tree<T>)
    returns (status: int, ghost sh': Shape<T>, ghost freed: TreeNode?<T>)
    requires Tidy(n, sh, t) && t.Node? && t.right.Node? && sh.Sub?
    modifies Objects(sh)
    ensures var (right, s) := Remove(compare, t.right, Min(t.right));
            Tidy(n, sh', Node(t.left, Min(t.right), right)) && status == s
    ensures status == 0 <==> freed != null
    ensures freed != null ==> {freed, freed.data} <= Objects(sh) && Objects(sh') == Objects(sh) - {freed, freed.data}
    ensures freed == null ==> sh' == sh && Objects(sh') == Objects(sh)
    decreases sh, 0
  {
    hide Tidy, Objects, Remove, Min;
    Exist(sh);
    Apart(n, sh, t);
    EmptyIff(n.right, sh.right, t.right);
    var successor := FindMin(n.right, sh.right, t.right);
    n.data.v := successor.data.v;
    var right;
    ghost var r;
    status, right, r, freed := RemoveNode(n.right, compare, successor.data, sh.right, t.right);
    n.right := right;
    Together(n, sh.left, t.left, r, Remove(compare, t.right, Min(t.right)).0);
    sh' := Sub(sh.left, n, r);
  }

  method SizeNode<T>(n: TreeNode?<T>, ghost sh: Shape<T>, ghost t: Tree<T>) returns (size: nat)
    requires Tidy(n, sh, t)
    ensures size == Size(t)
    decreases sh
  {
    if n == null { return 0; }
    Exist(sh.right);
    assert Tidy(n.right, sh.right, t.right);
    var l := SizeNode(n.left, sh.left, t.left);
    var r := SizeNode(n.right, sh.right, t.right);
    size := 1 + l + r;
  }

  // The three walks; `seen` is what the visitor has been called with so far.
  method InorderNode<T>(n: TreeNode?<T>, seen: seq<T>, ghost sh: Shape<T>, ghost t: Tree<T>) returns (seen': seq<T>)
    requires Tidy(n, sh, t)
    ensures seen' == seen + Inorder(t)
    decreases sh
  {
    seen' := seen;
    if n != null {
      Exist(sh.right);
      assert Tidy(n.right, sh.right, t.right);
      seen' := InorderNode(n.left, seen', sh.left, t.left);
      seen' := seen' + [n.data.v];
      seen' := InorderNode(n.right, seen', sh.right, t.right);
    }
  }

  method PreorderNode<T>(n: TreeNode?<T>, seen: seq<T>, ghost sh: Shape<T>, ghost t: Tree<T>) returns (seen': seq<T>)
    requires Tidy(n, sh, t)
    ensures seen' == seen + Preorder(t)
    decreases sh
  {
    seen' := seen;
    if n != null {
      Exist(sh.right);
      assert Tidy(n.right, sh.right, t.right);
      seen' := seen' + [n.data.v];
      seen' := PreorderNode(n.left, seen', sh.left, t.left);
      seen' := PreorderNode(n.right, seen', sh.right, t.right);
    }
  }

  method PostorderNode<T>(n: TreeNode?<T>, seen: seq<T>, ghost sh: Shape<T>, ghost t: Tree<T>) returns (seen': seq<T>)
    requires Tidy(n, sh, t)
    ensures seen' == seen + Postorder(t)
    decreases sh
  {
    seen' := seen;
    if n != null {
      Exist(sh.right);
      assert Tidy(n.right, sh.right, t.right);
      seen' := PostorderNode(n.left, seen', sh.left, t.left);
      seen' := PostorderNode(n.right, seen', sh.right, t.right);
      seen' := seen' + [n.data.v];
    }
  }

  class BinaryTree<T> {
    var root: TreeNode?<T>
    const compare: (T, T) -> int
    ghost var shape: Shape<T>
    ghost var model: Tree<T>

    ghost predicate Valid()
      reads this, Objects(shape)
    {
      this !in Objects(shape) && Tidy(root, shape, model)
    }

    constructor (compare: (T, T) -> int)
      ensures Valid() && shape == Nil && model == Leaf && this.compare == compare
    {
      this.compare := compare;
      root, shape, model := null, Nil, Leaf;
    }

    method Insert(x: T, memoryOk: bool) returns (status: int)
      requires Valid()
      modifies this, Objects(shape)
      ensures Valid() && Objects(old(shape)) <= Objects(shape) && fresh(Objects(shape) - Objects(old(shape)))
      ensures (model, status) == TreeSpec.Insert(compare, old(model), x, memoryOk)
    {
      var m;
      ghost var sh;
      status, m, sh := InsertNode(root, compare, x, memoryOk, shape, model);
      root, shape, model := m, sh, TreeSpec.Insert(compare, model, x, memoryOk).0;
    }

    method Remove(key: Buffer<T>) returns (status: int)
      requires Valid()
      modifies this, Objects(shape)
      ensures Valid() && Objects(shape) <= Objects(old(shape))
      ensures (model, status) == TreeSpec.Remove(compare, old(model), old(key.v))
      ensures status == 0 ==> |Objects(shape)| == |Objects(old(shape))| - 2
      ensures status != 0 ==> shape == old(shape)
    {
      var m;
      ghost var sh, freed;
      ghost var k := key.v;
      status, m, sh, freed := RemoveNode(root, compare, key, shape, model);
      root, shape, model := m, sh, TreeSpec.Remove(compare, model, k).0;
    }

    method Search(key: T) returns (r: Option<T>)
      requires Valid()
      ensures r == TreeSpec.Search(compare, model, key)
    {
      r := SearchNode(root, compare, key, shape, model);
    }

    method Size() returns (size: nat)
      requires Valid()
      ensures size == TreeSpec.Size(model)
    {
      size := SizeNode(root, shape, model);
    }
  }
}
