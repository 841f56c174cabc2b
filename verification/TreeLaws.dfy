// What each call on a search tree answers, and the shape it leaves.
module TreeLaws {
  import opened Common
  import opened TreeSpec
  import opened TreeTheorems
  import opened TreeWalks

  // A search hands out an element exactly when it sits in the tree and matches the key,
  // and nothing exactly when no element matches.
  lemma {:induction false} SearchIff<T(!new)>(cmp: (T, T) -> int, t: Tree<T>, k: T)
    requires Order(cmp) && Bst(cmp, t)
    ensures forall d :: Search(cmp, t, k) == Some(d) <==> Sits(t, d) && cmp(k, d) == 0
    ensures Search(cmp, t, k) == None <==> forall d | Sits(t, d) :: cmp(k, d) != 0
  {
    if t.Node? {
      SearchIff(cmp, t.left, k);
      SearchIff(cmp, t.right, k);
      forall d | Sits(t.left, d) || Sits(t.right, d)
        ensures Sits(t.left, d) && cmp(k, t.data) >= 0 ==> cmp(k, d) > 0
        ensures Sits(t.right, d) && cmp(k, t.data) <= 0 ==> cmp(k, d) < 0
      {
        Beside(cmp, t, k, d);
      }
      hide Order, Bst;
    }
  }

  // Elements to the left match no key from the node's on, and dually.
  lemma Beside<T(!new)>(cmp: (T, T) -> int, t: Tree<T>, k: T, d: T)
    requires Order(cmp) && Bst(cmp, t) && t.Node?
    ensures Sits(t.left, d) && cmp(k, t.data) >= 0 ==> cmp(k, d) > 0
    ensures Sits(t.right, d) && cmp(k, t.data) <= 0 ==> cmp(k, d) < 0
  {
    WalkMembers(Middle, t.left);
    WalkMembers(Middle, t.right);
    Mirror(cmp, k, t.data);
    if Sits(t.left, d) && cmp(k, t.data) >= 0 {
      assert d in Inorder(t.left);
      Chain(cmp, d, t.data, k);
      Mirror(cmp, d, k);
    }
    if Sits(t.right, d) && cmp(k, t.data) <= 0 {
      assert d in Inorder(t.right);
      Chain(cmp, k, t.data, d);
    }
  }

  // An insert fails exactly when no element matches and there is no memory; it adds one
  // node exactly when it succeeds and no element matched, and otherwise nothing changes.
  lemma {:induction false} InsertStatus<T(!new)>(cmp: (T, T) -> int, t: Tree<T>, x: T, memoryOk: bool)
    requires Order(cmp) && Bst(cmp, t)
    ensures var (t', s) := Insert(cmp, t, x, memoryOk);
            var absent := forall d | Sits(t, d) :: cmp(x, d) != 0;
            && s == (if absent && !memoryOk then -1 else 0)
            && (absent && memoryOk ==> Size(t') == Size(t) + 1)
            && (!absent || !memoryOk ==> t' == t)
  {
    SearchIff(cmp, t, x);
    InsertBySearch(cmp, t, x, memoryOk);
  }

  lemma {:induction false} InsertBySearch<T>(cmp: (T, T) -> int, t: Tree<T>, x: T, memoryOk: bool)
    ensures var (t', s) := Insert(cmp, t, x, memoryOk);
            var absent := Search(cmp, t, x) == None;
            && s == (if absent && !memoryOk then -1 else 0)
            && (absent && memoryOk ==> Size(t') == Size(t) + 1)
            && (!absent || !memoryOk ==> t' == t)
  {
    if t.Node? {
      InsertBySearch(cmp, t.left, x, memoryOk);
      InsertBySearch(cmp, t.right, x, memoryOk);
    }
  }

  // A removal succeeds exactly when an element matches, and then there is one node fewer.
  lemma RemoveStatus<T(!new)>(cmp: (T, T) -> int, t: Tree<T>, k: T)
    requires Order(cmp) && Bst(cmp, t)
    ensures var (t', s) := Remove(cmp, t, k);
            var absent := forall d | Sits(t, d) :: cmp(k, d) != 0;
            && s == (if absent then -1 else 0)
            && Size(t') == Size(t) - (if absent then 0 else 1)
            && (absent ==> t' == t)
  {
    hide Order, Bst, Sorted, Remove, Search;
    BstIffSorted(cmp, t);
    SearchIff(cmp, t, k);
    SearchRefines(cmp, t, k);
    RemoveRefines(cmp, t, k);
    SizeIsLength(t);
    SizeIsLength(Remove(cmp, t, k).0);
    PartsAddUp(cmp, Inorder(t), k);
    OneMatch(cmp, t, k);
  }

  lemma {:induction false} PartsAddUp<T>(cmp: (T, T) -> int, s: seq<T>, k: T)
    ensures |Part(cmp, s, k, Less)| + |Part(cmp, s, k, Same)| + |Part(cmp, s, k, More)| == |s|
  {
    if s != [] { PartsAddUp(cmp, s[1..], k); }
  }

  lemma {:induction false} OneMatch<T(!new)>(cmp: (T, T) -> int, t: Tree<T>, k: T)
    requires Order(cmp) && Sorted(cmp, Inorder(t))
    ensures |Part(cmp, Inorder(t), k, Same)| <= 1
  {
    if t.Node? {
      var l, d, r := Inorder(t.left), t.data, Inorder(t.right);
      SortedAround(cmp, l, d, r);
      PartAround(cmp, l, d, r, k, Same);
      hide Order, Sorted, Part;
      OneMatch(cmp, t.left, k);
      OneMatch(cmp, t.right, k);
    }
  }

  // Removing the element at the root: a lone child takes its place; between two children
  // the least element on the right does, the left one staying as it was.
  lemma RemoveRoot<T(!new)>(cmp: (T, T) -> int, t: Tree<T>, k: T)
    requires Order(cmp) && Bst(cmp, t) && t.Node? && cmp(k, t.data) == 0
    ensures var t' := Remove(cmp, t, k).0;
            && (t.left.Leaf? ==> t' == t.right)
            && (t.right.Leaf? ==> t' == t.left)
            && (t.left.Node? && t.right.Node? ==>
                  && t'.Node? && t'.left == t.left
                  && Inorder(t.right) == [t'.data] + Inorder(t'.right))
  {
    if t.left.Node? && t.right.Node? {
      hide Order, Sorted, SeqRemove;
      BstIffSorted(cmp, t);
      SortedAround(cmp, Inorder(t.left), t.data, Inorder(t.right));
      MinIsFirst(t.right);
      RemoveRefines(cmp, t.right, Min(t.right));
      RemoveFirst(cmp, Inorder(t.right));
    }
  }
}
