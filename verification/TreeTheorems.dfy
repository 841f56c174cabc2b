// Whole runs of the search tree, the laws of a finite map, and rebuilding from a walk.
module TreeTheorems {
  import opened Common
  import opened TreeSpec

  // ---------------------------------------------------------------- runs

  datatype Op<T> = InsertOp(x: T, memoryOk: bool) | SearchOp(k: T) | RemoveOp(k: T) | SizeOp

  datatype Out<T> = Status(code: int) | Found(data: Option<T>) | Count(n: nat)

  function Apply<T>(cmp: (T, T) -> int, t: Tree<T>, op: Op<T>): (Tree<T>, Out<T>)
  {
    match op
    case InsertOp(x, memoryOk) => var (t', s) := Insert(cmp, t, x, memoryOk); (t', Status(s))
    case SearchOp(k) => (t, Found(Search(cmp, t, k)))
    case RemoveOp(k) => var (t', s) := Remove(cmp, t, k); (t', Status(s))
    case SizeOp => (t, Count(Size(t)))
  }

  function SeqApply<T>(cmp: (T, T) -> int, s: seq<T>, op: Op<T>): (seq<T>, Out<T>)
  {
    match op
    case InsertOp(x, memoryOk) => var (s', c) := SeqInsert(cmp, s, x, memoryOk); (s', Status(c))
    case SearchOp(k) => (s, Found(SeqSearch(cmp, s, k)))
    case RemoveOp(k) => var (s', c) := SeqRemove(cmp, s, k); (s', Status(c))
    case SizeOp => (s, Count(|s|))
  }

  function Run<T>(cmp: (T, T) -> int, t: Tree<T>, ops: seq<Op<T>>): (Tree<T>, seq<Out<T>>)
    decreases |ops|
  {
    if ops == [] then (t, [])
    else
      var (t', out) := Apply(cmp, t, ops[0]);
      var (t'', outs) := Run(cmp, t', ops[1..]);
      (t'', [out] + outs)
  }

  function SeqRun<T>(cmp: (T, T) -> int, s: seq<T>, ops: seq<Op<T>>): (seq<T>, seq<Out<T>>)
    decreases |ops|
  {
    if ops == [] then (s, [])
    else
      var (s', out) := SeqApply(cmp, s, ops[0]);
      var (s'', outs) := SeqRun(cmp, s', ops[1..]);
      (s'', [out] + outs)
  }

  lemma PartMembers<T>(cmp: (T, T) -> int, s: seq<T>, x: T, side: Side)
    ensures forall e :: e in Part(cmp, s, x, side) <==> e in s && SideOf(cmp(e, x)) == side
  {
  }

  lemma {:induction false} PartSorted<T(!new)>(cmp: (T, T) -> int, s: seq<T>, x: T, side: Side)
    requires Order(cmp) && Sorted(cmp, s)
    ensures Sorted(cmp, Part(cmp, s, x, side))
  {
    if s != [] {
      assert s == [s[0]] + s[1..];
      SortedAppend(cmp, [s[0]], s[1..]);
      PartSorted(cmp, s[1..], x, side);
      PartMembers(cmp, s[1..], x, side);
      var rest := Part(cmp, s[1..], x, side);
      forall j | 0 <= j < |rest| ensures cmp(s[0], rest[j]) < 0 {
        assert rest[j] in s[1..];
      }
      SortedAppend(cmp, [s[0]], rest);
    }
  }

  lemma SortedParts<T(!new)>(cmp: (T, T) -> int, s: seq<T>, x: T)
    requires Order(cmp) && Sorted(cmp, s)
    ensures Sorted(cmp, Part(cmp, s, x, Less) + [x] + Part(cmp, s, x, More))
    ensures Sorted(cmp, Part(cmp, s, x, Less) + Part(cmp, s, x, More))
  {
    var a, b := Part(cmp, s, x, Less), Part(cmp, s, x, More);
    PartSorted(cmp, s, x, Less);
    PartSorted(cmp, s, x, More);
    PartMembers(cmp, s, x, Less);
    PartMembers(cmp, s, x, More);
    forall e | e in b ensures cmp(x, e) < 0 {
      Mirror(cmp, x, e);
    }
    SortedAround(cmp, a, x, b);
    forall i, j | 0 <= i < |a| && 0 <= j < |b| ensures cmp(a[i], b[j]) < 0 {
      Chain(cmp, a[i], x, b[j]);
    }
    SortedAppend(cmp, a, b);
  }

  lemma SeqApplySorted<T(!new)>(cmp: (T, T) -> int, s: seq<T>, op: Op<T>)
    requires Order(cmp) && Sorted(cmp, s)
    ensures Sorted(cmp, SeqApply(cmp, s, op).0)
  {
    match op
    case InsertOp(x, _) => SortedParts(cmp, s, x);
    case SearchOp(_) =>
    case RemoveOp(k) => SortedParts(cmp, s, k);
    case SizeOp =>
  }

  lemma ApplyRefines<T(!new)>(cmp: (T, T) -> int, t: Tree<T>, op: Op<T>)
    requires Order(cmp) && Sorted(cmp, Inorder(t))
    ensures Inorder(Apply(cmp, t, op).0) == SeqApply(cmp, Inorder(t), op).0
    ensures Apply(cmp, t, op).1 == SeqApply(cmp, Inorder(t), op).1
  {
    hide Order, Sorted, Insert, Remove, Search, SeqInsert, SeqRemove, SeqSearch;
    match op
    case InsertOp(x, memoryOk) => InsertRefines(cmp, t, x, memoryOk);
    case SearchOp(k) => SearchRefines(cmp, t, k);
    case RemoveOp(k) => RemoveRefines(cmp, t, k);
    case SizeOp => SizeIsLength(t);
  }

  // Every run on a search tree answers like the sorted dictionary, stays a search tree,
  // and its in-order walk visits the dictionary's elements, strictly increasing.
  lemma {:induction false} RunRefines<T(!new)>(cmp: (T, T) -> int, t: Tree<T>, ops: seq<Op<T>>)
    requires Order(cmp) && Bst(cmp, t)
    ensures Run(cmp, t, ops).1 == SeqRun(cmp, Inorder(t), ops).1
    ensures Inorder(Run(cmp, t, ops).0) == SeqRun(cmp, Inorder(t), ops).0
    ensures Bst(cmp, Run(cmp, t, ops).0) && Sorted(cmp, Inorder(Run(cmp, t, ops).0))
    decreases |ops|
  {
    hide Order, Sorted, Bst, Apply, SeqApply;
    BstIffSorted(cmp, t);
    if ops != [] {
      var t' := Apply(cmp, t, ops[0]).0;
      ApplyRefines(cmp, t, ops[0]);
      SeqApplySorted(cmp, Inorder(t), ops[0]);
      BstIffSorted(cmp, t');
      RunRefines(cmp, t', ops[1..]);
    }
  }

  // ---------------------------------------------------------------- finite-map laws

  // What a key sees depends only on the part of the sequence that equals it.
  lemma {:induction false} SamePartSide<T(!new)>(cmp: (T, T) -> int, s: seq<T>, x: T, k: T, side: Side)
    requires Order(cmp) && cmp(x, k) == 0
    ensures Part(cmp, s, x, side) == Part(cmp, s, k, side)
  {
    if s != [] {
      EqualKeysAgree(cmp, s[0], x, k);
      SamePartSide(cmp, s[1..], x, k, side);
    }
  }

  lemma EqualKeysAgree<T(!new)>(cmp: (T, T) -> int, e: T, x: T, k: T)
    requires Order(cmp) && cmp(x, k) == 0
    ensures SideOf(cmp(e, x)) == SideOf(cmp(e, k))
  {
    Mirror(cmp, x, k);
    Chain(cmp, e, x, k);
    Chain(cmp, e, k, x);
    Mirror(cmp, e, x);
    Mirror(cmp, e, k);
    Chain(cmp, x, k, e);
    Chain(cmp, k, x, e);
  }

  // Insert then search: the first insert of a key wins and other keys are untouched.
  lemma {:induction false} SearchAfterInsert<T(!new)>(cmp: (T, T) -> int, t: Tree<T>, x: T, k: T)
    requires Order(cmp) && Bst(cmp, t)
    ensures Search(cmp, Insert(cmp, t, x, true).0, k) ==
            if cmp(k, x) == 0 && Search(cmp, t, x) == None then Some(x) else Search(cmp, t, k)
    decreases t
  {
    if t.Node? {
      SearchAfterInsertHere(cmp, t.data, x, k);
      SearchAfterInsert(cmp, t.left, x, k);
      SearchAfterInsert(cmp, t.right, x, k);
    }
  }

  // Equal keys fall on the same side of a node.
  lemma SearchAfterInsertHere<T(!new)>(cmp: (T, T) -> int, d: T, x: T, k: T)
    requires Order(cmp)
    ensures cmp(k, x) == 0 ==> SideOf(cmp(k, d)) == SideOf(cmp(x, d))
  {
    if cmp(k, x) == 0 {
      EqualKeysAgree(cmp, d, k, x);
      Mirror(cmp, d, k);
      Mirror(cmp, d, x);
    }
  }

  // Remove then search: the key is gone and other keys are untouched.
  lemma SearchAfterRemove<T(!new)>(cmp: (T, T) -> int, t: Tree<T>, x: T, k: T)
    requires Order(cmp) && Bst(cmp, t)
    ensures Search(cmp, Remove(cmp, t, x).0, k) == if cmp(k, x) == 0 then None else Search(cmp, t, k)
  {
    hide Order, Sorted, Bst, Remove, Search;
    var s := Inorder(t);
    var s' := SeqRemove(cmp, s, x).0;
    BstIffSorted(cmp, t);
    RemoveRefines(cmp, t, x);
    SeqApplySorted(cmp, s, RemoveOp(x));
    SearchRefines(cmp, t, k);
    SearchRefines(cmp, Remove(cmp, t, x).0, k);
    SeqSearchAfterRemove(cmp, s, x, k);
  }

  lemma SeqSearchAfterRemove<T(!new)>(cmp: (T, T) -> int, s: seq<T>, x: T, k: T)
    requires Order(cmp)
    ensures SeqSearch(cmp, SeqRemove(cmp, s, x).0, k) == if cmp(k, x) == 0 then None else SeqSearch(cmp, s, k)
  {
    if cmp(k, x) == 0 {
      Mirror(cmp, k, x);
      SamePartSide(cmp, s, x, k, Same);
      OthersKept(cmp, s, x, k);
    } else {
      OthersKept(cmp, s, x, k);
    }
  }

  // Dropping the elements equal to x takes from the part equal to k all of it or nothing.
  lemma OthersKept<T(!new)>(cmp: (T, T) -> int, s: seq<T>, x: T, k: T)
    requires Order(cmp)
    ensures Part(cmp, Part(cmp, s, x, Less) + Part(cmp, s, x, More), k, Same) ==
            if cmp(k, x) == 0 then [] else Part(cmp, s, k, Same)
  {
    var side := SideOf(cmp(k, x));
    PartAppend(cmp, Part(cmp, s, x, Less), Part(cmp, s, x, More), k, Same);
    PartOfPart(cmp, s, x, k, Less);
    PartOfPart(cmp, s, x, k, More);
    assert Part(cmp, s, k, Same) + [] == Part(cmp, s, k, Same) == [] + Part(cmp, s, k, Same);
  }

  lemma {:induction false} PartOfPart<T(!new)>(cmp: (T, T) -> int, s: seq<T>, x: T, k: T, side: Side)
    requires Order(cmp)
    ensures Part(cmp, Part(cmp, s, x, side), k, Same) ==
            if SideOf(cmp(k, x)) == side then Part(cmp, s, k, Same) else []
  {
    if s != [] {
      var e := s[0];
      PartOfPart(cmp, s[1..], x, k, side);
      PartAppend(cmp, if SideOf(cmp(e, x)) == side then [e] else [], Part(cmp, s[1..], x, side), k, Same);
      SearchAfterInsertHere(cmp, x, k, e);
      Mirror(cmp, k, e);
    }
  }

  // ---------------------------------------------------------------- rebuilding

  function InsertAll<T>(cmp: (T, T) -> int, t: Tree<T>, xs: seq<T>): Tree<T>
    decreases |xs|
  {
    if xs == [] then t else InsertAll(cmp, Insert(cmp, t, xs[0], true).0, xs[1..])
  }

  lemma {:induction false} InsertAllAppend<T>(cmp: (T, T) -> int, t: Tree<T>, xs: seq<T>, ys: seq<T>)
    ensures InsertAll(cmp, t, xs + ys) == InsertAll(cmp, InsertAll(cmp, t, xs), ys)
    decreases |xs|
  {
    if xs == [] {
      assert xs + ys == ys;
    } else {
      assert (xs + ys)[0] == xs[0] && (xs + ys)[1..] == xs[1..] + ys;
      InsertAllAppend(cmp, Insert(cmp, t, xs[0], true).0, xs[1..], ys);
    }
  }

  // Elements below the root all go to the left subtree, those above it to the right.
  lemma {:induction false} InsertAllLeft<T>(cmp: (T, T) -> int, l: Tree<T>, d: T, r: Tree<T>, xs: seq<T>)
    requires forall e | e in xs :: cmp(e, d) < 0
    ensures InsertAll(cmp, Node(l, d, r), xs) == Node(InsertAll(cmp, l, xs), d, r)
    decreases |xs|
  {
    if xs != [] {
      assert xs[0] in xs;
      InsertAllLeft(cmp, Insert(cmp, l, xs[0], true).0, d, r, xs[1..]);
    }
  }

  lemma {:induction false} InsertAllRight<T>(cmp: (T, T) -> int, l: Tree<T>, d: T, r: Tree<T>, xs: seq<T>)
    requires forall e | e in xs :: cmp(e, d) > 0
    ensures InsertAll(cmp, Node(l, d, r), xs) == Node(l, d, InsertAll(cmp, r, xs))
    decreases |xs|
  {
    if xs != [] {
      assert xs[0] in xs;
      InsertAllRight(cmp, l, d, Insert(cmp, r, xs[0], true).0, xs[1..]);
    }
  }

  lemma WalksVisitTheSame<T>(t: Tree<T>)
    ensures forall e :: e in Preorder(t) <==> e in Inorder(t)
    ensures forall e :: e in Postorder(t) <==> e in Inorder(t)
  {
  }

  // Inserting the pre-order walk of a search tree into an empty tree gives back exactly
  // that tree, shape included.
  lemma {:induction false} RebuildFromPreorder<T(!new)>(cmp: (T, T) -> int, t: Tree<T>)
    requires Order(cmp) && Bst(cmp, t)
    ensures InsertAll(cmp, Leaf, Preorder(t)) == t
  {
    if t.Node? {
      RebuildFromPreorder(cmp, t.left);
      RebuildFromPreorder(cmp, t.right);
      WalksVisitTheSame(t.left);
      WalksVisitTheSame(t.right);
      Assemble(cmp, t.left, t.data, t.right, Preorder(t.left), Preorder(t.right), t);
      InsertAllAppend(cmp, Leaf, [t.data] + Preorder(t.left), Preorder(t.right));
      InsertAllAppend(cmp, Leaf, [t.data], Preorder(t.left));
    }
  }

  // Two walks that rebuild the subtrees rebuild the whole under its root, in either order.
  lemma Assemble<T(!new)>(cmp: (T, T) -> int, l: Tree<T>, d: T, r: Tree<T>, xs: seq<T>, ys: seq<T>, t: Tree<T>)
    requires Order(cmp) && Bst(cmp, t) && t == Node(l, d, r)
    requires InsertAll(cmp, Leaf, xs) == l && InsertAll(cmp, Leaf, ys) == r
    requires forall e | e in xs :: e in Inorder(l)
    requires forall e | e in ys :: e in Inorder(r)
    ensures InsertAll(cmp, InsertAll(cmp, InsertAll(cmp, Leaf, [d]), xs), ys) == t
    ensures InsertAll(cmp, InsertAll(cmp, InsertAll(cmp, Leaf, [d]), ys), xs) == t
  {
    assert InsertAll(cmp, Leaf, [d]) == Node(Leaf, d, Leaf);
    forall e | e in ys ensures cmp(e, d) > 0 {
      Mirror(cmp, d, e);
    }
    InsertAllLeft(cmp, Leaf, d, Leaf, xs);
    InsertAllRight(cmp, l, d, Leaf, ys);
    InsertAllRight(cmp, Leaf, d, Leaf, ys);
    InsertAllLeft(cmp, Leaf, d, r, xs);
  }

  lemma ReverseAppend<T>(a: seq<T>, b: seq<T>)
    ensures Reverse(a + b) == Reverse(b) + Reverse(a)
  {
  }

  // The same holds of the reversed post-order walk.
  lemma {:induction false} RebuildFromReversedPostorder<T(!new)>(cmp: (T, T) -> int, t: Tree<T>)
    requires Order(cmp) && Bst(cmp, t)
    ensures InsertAll(cmp, Leaf, Reverse(Postorder(t))) == t
  {
    if t.Node? {
      var xs, ys := Reverse(Postorder(t.left)), Reverse(Postorder(t.right));
      RebuildFromReversedPostorder(cmp, t.left);
      RebuildFromReversedPostorder(cmp, t.right);
      WalksVisitTheSame(t.left);
      WalksVisitTheSame(t.right);
      Assemble(cmp, t.left, t.data, t.right, xs, ys, t);
      ReverseAppend(Postorder(t.left) + Postorder(t.right), [t.data]);
      ReverseAppend(Postorder(t.left), Postorder(t.right));
      assert Reverse([t.data]) == [t.data];
      assert Reverse(Postorder(t)) == [t.data] + ys + xs;
      InsertAllAppend(cmp, Leaf, [t.data] + ys, xs);
      InsertAllAppend(cmp, Leaf, [t.data], ys);
    }
  }
}
