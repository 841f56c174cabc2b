// The binary search tree as a value: the same recursion as the code, and what it
// computes in terms of the sorted sequence of stored elements.
module TreeSpec {
  import opened Common

  datatype Tree<T> = Leaf | Node(left: Tree<T>, data: T, right: Tree<T>)

  // A comparator in the C convention that is a total (pre)order: elements that compare
  // as equal need not be identical.
  ghost predicate Order<T(!new)>(cmp: (T, T) -> int)
  {
    && (forall a :: cmp(a, a) == 0)
    && (forall a, b :: cmp(a, b) < 0 <==> cmp(b, a) > 0)
    && (forall a, b, c :: cmp(a, b) <= 0 && cmp(b, c) <= 0 ==> cmp(a, c) <= 0)
  }

  function Insert<T>(cmp: (T, T) -> int, t: Tree<T>, x: T, memoryOk: bool): (Tree<T>, int)
  {
    match t
    case Leaf => if memoryOk then (Node(Leaf, x, Leaf), 0) else (Leaf, -1)
    case Node(l, d, r) =>
      var c := cmp(x, d);
      if c < 0 then var (l', s) := Insert(cmp, l, x, memoryOk); (Node(l', d, r), s)
      else if c > 0 then var (r', s) := Insert(cmp, r, x, memoryOk); (Node(l, d, r'), s)
      else (t, 0)
  }

  function Search<T>(cmp: (T, T) -> int, t: Tree<T>, k: T): Option<T>
  {
    match t
    case Leaf => None
    case Node(l, d, r) =>
      var c := cmp(k, d);
      if c == 0 then Some(d) else if c < 0 then Search(cmp, l, k) else Search(cmp, r, k)
  }

  function Min<T>(t: Tree<T>): T
    requires t.Node?
  {
    if t.left.Leaf? then t.data else Min(t.left)
  }

  // With two children the successor's element moves up and is removed from the right
  // subtree by a second search.
  function Remove<T>(cmp: (T, T) -> int, t: Tree<T>, k: T): (Tree<T>, int)
  {
    match t
    case Leaf => (Leaf, -1)
    case Node(l, d, r) =>
      var c := cmp(k, d);
      if c < 0 then var (l', s) := Remove(cmp, l, k); (Node(l', d, r), s)
      else if c > 0 then var (r', s) := Remove(cmp, r, k); (Node(l, d, r'), s)
      else if l.Leaf? then (r, 0)
      else if r.Leaf? then (l, 0)
      else var (r', s) := Remove(cmp, r, Min(r)); (Node(l, Min(r), r'), s)
  }

  function Inorder<T>(t: Tree<T>): seq<T>
  {
    if t.Leaf? then [] else Inorder(t.left) + [t.data] + Inorder(t.right)
  }

  function Preorder<T>(t: Tree<T>): seq<T>
  {
    if t.Leaf? then [] else [t.data] + Preorder(t.left) + Preorder(t.right)
  }

  function Postorder<T>(t: Tree<T>): seq<T>
  {
    if t.Leaf? then [] else Postorder(t.left) + Postorder(t.right) + [t.data]
  }

  function Size<T>(t: Tree<T>): nat
  {
    if t.Leaf? then 0 else 1 + Size(t.left) + Size(t.right)
  }

  // ---------------------------------------------------------------- sorted sequences

  ghost predicate Sorted<T>(cmp: (T, T) -> int, s: seq<T>)
  {
    forall i, j | 0 <= i < j < |s| :: cmp(s[i], s[j]) < 0
  }

  // The search-tree property.
  ghost predicate Bst<T>(cmp: (T, T) -> int, t: Tree<T>)
  {
    t.Node? ==>
      && Bst(cmp, t.left) && Bst(cmp, t.right)
      && (forall e | e in Inorder(t.left) :: cmp(e, t.data) < 0)
      && (forall e | e in Inorder(t.right) :: cmp(t.data, e) < 0)
  }

  ghost predicate AllBefore<T>(cmp: (T, T) -> int, a: seq<T>, b: seq<T>)
  {
    forall i, j | 0 <= i < |a| && 0 <= j < |b| :: cmp(a[i], b[j]) < 0
  }

  lemma SortedAppend<T>(cmp: (T, T) -> int, a: seq<T>, b: seq<T>)
    ensures Sorted(cmp, a + b) <==> Sorted(cmp, a) && Sorted(cmp, b) && AllBefore(cmp, a, b)
  {
    var s := a + b;
    if Sorted(cmp, s) {
      forall i, j | 0 <= i < j < |a| ensures cmp(a[i], a[j]) < 0 {
        assert s[i] == a[i] && s[j] == a[j];
      }
      forall i, j | 0 <= i < j < |b| ensures cmp(b[i], b[j]) < 0 {
        assert s[|a| + i] == b[i] && s[|a| + j] == b[j];
      }
      forall i, j | 0 <= i < |a| && 0 <= j < |b| ensures cmp(a[i], b[j]) < 0 {
        assert s[i] == a[i] && s[|a| + j] == b[j];
      }
    }
  }

  // l + [d] + r is sorted when both halves are and d separates them.
  lemma SortedAround<T(!new)>(cmp: (T, T) -> int, l: seq<T>, d: T, r: seq<T>)
    requires Order(cmp)
    ensures Sorted(cmp, l + [d] + r) <==>
            && Sorted(cmp, l) && Sorted(cmp, r)
            && (forall e | e in l :: cmp(e, d) < 0) && (forall e | e in r :: cmp(d, e) < 0)
  {
    SortedAppend(cmp, l, [d]);
    SortedAppend(cmp, l + [d], r);
    if Sorted(cmp, l + [d] + r) {
      assert (l + [d])[|l|] == d;
    } else if (forall e | e in l :: cmp(e, d) < 0) && (forall e | e in r :: cmp(d, e) < 0) {
      forall i, j | 0 <= i < |l + [d]| && 0 <= j < |r| ensures cmp((l + [d])[i], r[j]) < 0 {
        if i < |l| {
          Chain(cmp, l[i], d, r[j]);
        }
      }
    }
  }

  lemma Chain<T(!new)>(cmp: (T, T) -> int, a: T, b: T, c: T)
    requires Order(cmp)
    ensures cmp(a, b) < 0 && cmp(b, c) <= 0 ==> cmp(a, c) < 0
    ensures cmp(a, b) <= 0 && cmp(b, c) < 0 ==> cmp(a, c) < 0
  {
  }

  // A search tree is a tree whose in-order walk visits strictly increasing elements.
  lemma {:induction false} BstIffSorted<T(!new)>(cmp: (T, T) -> int, t: Tree<T>)
    requires Order(cmp)
    ensures Bst(cmp, t) <==> Sorted(cmp, Inorder(t))
  {
    if t.Node? {
      BstIffSorted(cmp, t.left);
      BstIffSorted(cmp, t.right);
      SortedAround(cmp, Inorder(t.left), t.data, Inorder(t.right));
    }
  }

  lemma {:induction false} SizeIsLength<T>(t: Tree<T>)
    ensures Size(t) == |Inorder(t)|
  {
    if t.Node? {
      SizeIsLength(t.left);
      SizeIsLength(t.right);
    }
  }

  // ---------------------------------------------------------------- the reference dictionary

  datatype Side = Less | Same | More

  function SideOf(c: int): Side
  {
    if c < 0 then Less else if c == 0 then Same else More
  }

  // The elements of s that lie on the given side of x, in order.
  function Part<T>(cmp: (T, T) -> int, s: seq<T>, x: T, side: Side): seq<T>
  {
    if s == [] then []
    else (if SideOf(cmp(s[0], x)) == side then [s[0]] else []) + Part(cmp, s[1..], x, side)
  }

  // A sorted dictionary: the first element inserted under a key stays.
  function SeqInsert<T>(cmp: (T, T) -> int, s: seq<T>, x: T, memoryOk: bool): (seq<T>, int)
  {
    if Part(cmp, s, x, Same) != [] then (s, 0)
    else if memoryOk then (Part(cmp, s, x, Less) + [x] + Part(cmp, s, x, More), 0)
    else (s, -1)
  }

  function SeqSearch<T>(cmp: (T, T) -> int, s: seq<T>, k: T): Option<T>
  {
    if Part(cmp, s, k, Same) == [] then None else Some(Part(cmp, s, k, Same)[0])
  }

  function SeqRemove<T>(cmp: (T, T) -> int, s: seq<T>, k: T): (seq<T>, int)
  {
    if Part(cmp, s, k, Same) == [] then (s, -1)
    else (Part(cmp, s, k, Less) + Part(cmp, s, k, More), 0)
  }

  lemma {:induction false} PartAppend<T>(cmp: (T, T) -> int, a: seq<T>, b: seq<T>, x: T, side: Side)
    ensures Part(cmp, a + b, x, side) == Part(cmp, a, x, side) + Part(cmp, b, x, side)
  {
    if a == [] {
      assert a + b == b;
    } else {
      assert (a + b)[0] == a[0] && (a + b)[1..] == a[1..] + b;
      PartAppend(cmp, a[1..], b, x, side);
      var first := if SideOf(cmp(a[0], x)) == side then [a[0]] else [];
      InFront(first, Part(cmp, a[1..], x, side), Part(cmp, b, x, side));
    }
  }

  lemma InFront<T>(a: seq<T>, b: seq<T>, c: seq<T>)
    ensures a + (b + c) == (a + b) + c
  {
  }

  lemma {:induction false} PartUniform<T>(cmp: (T, T) -> int, s: seq<T>, x: T, actual: Side, side: Side)
    requires On(cmp, s, x, actual)
    ensures Part(cmp, s, x, side) == if side == actual then s else []
  {
    if s != [] {
      PartUniform(cmp, s[1..], x, actual, side);
    }
  }

  // Everything in s lies on the given side of x.
  ghost predicate On<T>(cmp: (T, T) -> int, s: seq<T>, x: T, side: Side)
  {
    forall e | e in s :: SideOf(cmp(e, x)) == side
  }

  lemma Mirror<T(!new)>(cmp: (T, T) -> int, a: T, b: T)
    requires Order(cmp)
    ensures cmp(a, b) < 0 <==> cmp(b, a) > 0
    ensures cmp(a, b) == 0 <==> cmp(b, a) == 0
  {
  }

  // Seen from a key no bigger than d, everything after d is More; dually for Less.
  lemma SidesAround<T(!new)>(cmp: (T, T) -> int, l: seq<T>, d: T, r: seq<T>, x: T)
    requires Order(cmp)
    requires (forall e | e in l :: cmp(e, d) < 0) && (forall e | e in r :: cmp(d, e) < 0)
    ensures cmp(x, d) <= 0 ==> On(cmp, r, x, More)
    ensures cmp(x, d) >= 0 ==> On(cmp, l, x, Less)
    ensures On(cmp, [d], x, if cmp(x, d) < 0 then More else if cmp(x, d) > 0 then Less else Same)
  {
    hide Order;
    Mirror(cmp, x, d);
    forall e | e in r ensures cmp(x, d) <= 0 ==> cmp(e, x) > 0 {
      Chain(cmp, x, d, e);
      Mirror(cmp, x, e);
    }
    forall e | e in l ensures cmp(x, d) >= 0 ==> cmp(e, x) < 0 {
      Mirror(cmp, d, x);
      Chain(cmp, e, d, x);
    }
  }

  // The part of a sorted l + [d] + r on one side of a key, in terms of the parts of l and r.
  ghost function PartOfNode<T>(cmp: (T, T) -> int, l: seq<T>, d: T, r: seq<T>, x: T, side: Side): seq<T>
  {
    if cmp(x, d) < 0 then
      if side == More then Part(cmp, l, x, More) + [d] + r else Part(cmp, l, x, side)
    else if cmp(x, d) > 0 then
      if side == Less then l + [d] + Part(cmp, r, x, Less) else Part(cmp, r, x, side)
    else
      match side case Less => l case Same => [d] case More => r
  }

  lemma PartAround<T(!new)>(cmp: (T, T) -> int, l: seq<T>, d: T, r: seq<T>, x: T, side: Side)
    requires Order(cmp) && Sorted(cmp, l + [d] + r)
    ensures Part(cmp, l + [d] + r, x, side) == PartOfNode(cmp, l, d, r, x, side)
  {
    SortedAround(cmp, l, d, r);
    SidesAround(cmp, l, d, r, x);
    hide Order, Sorted, Part, On;
    PartAppend(cmp, l, [d], x, side);
    PartAppend(cmp, l + [d], r, x, side);
    PartUniform(cmp, [d], x, if cmp(x, d) < 0 then More else if cmp(x, d) > 0 then Less else Same, side);
    if cmp(x, d) < 0 {
      PartUniform(cmp, r, x, More, side);
      NoTail(Part(cmp, l, x, side));
    } else if cmp(x, d) > 0 {
      PartUniform(cmp, l, x, Less, side);
      NoTail(Part(cmp, r, x, side));
      NoTail<T>([]);
    } else {
      PartUniform(cmp, l, x, Less, side);
      PartUniform(cmp, r, x, More, side);
      NoTail<T>([]);
      NoTail(l);
      NoTail([d]);
      NoTail(r);
    }
  }

  lemma NoTail<T>(a: seq<T>)
    ensures a + [] == a == [] + a
  {
  }

  lemma AllParts<T(!new)>(cmp: (T, T) -> int, l: seq<T>, d: T, r: seq<T>, x: T)
    requires Order(cmp) && Sorted(cmp, l + [d] + r)
    ensures Sorted(cmp, l) && Sorted(cmp, r)
    ensures forall side :: Part(cmp, l + [d] + r, x, side) == PartOfNode(cmp, l, d, r, x, side)
  {
    SortedAround(cmp, l, d, r);
    forall side ensures Part(cmp, l + [d] + r, x, side) == PartOfNode(cmp, l, d, r, x, side) {
      PartAround(cmp, l, d, r, x, side);
    }
  }

  // The dictionary operations on a sorted l + [d] + r reduce to one half, or to d itself.
  lemma DictionaryLeft<T(!new)>(cmp: (T, T) -> int, l: seq<T>, d: T, r: seq<T>, k: T, memoryOk: bool)
    requires Order(cmp) && Sorted(cmp, l + [d] + r) && cmp(k, d) < 0
    ensures SeqSearch(cmp, l + [d] + r, k) == SeqSearch(cmp, l, k)
    ensures var (s, c) := SeqInsert(cmp, l, k, memoryOk); SeqInsert(cmp, l + [d] + r, k, memoryOk) == (s + [d] + r, c)
    ensures var (s, c) := SeqRemove(cmp, l, k); SeqRemove(cmp, l + [d] + r, k) == (s + [d] + r, c)
  {
    AllParts(cmp, l, d, r, k);
    hide Order, Sorted, Part;
    var a, m := Part(cmp, l, k, Less), Part(cmp, l, k, More);
    Regroup(a + [k], m, [d], r);
    Regroup(a, m, [d], r);
  }

  lemma Regroup<T>(a: seq<T>, b: seq<T>, c: seq<T>, d: seq<T>)
    ensures (a + b) + c + d == a + (b + c + d)
  {
  }

  lemma DictionaryRight<T(!new)>(cmp: (T, T) -> int, l: seq<T>, d: T, r: seq<T>, k: T, memoryOk: bool)
    requires Order(cmp) && Sorted(cmp, l + [d] + r) && cmp(k, d) > 0
    ensures SeqSearch(cmp, l + [d] + r, k) == SeqSearch(cmp, r, k)
    ensures var (s, c) := SeqInsert(cmp, r, k, memoryOk); SeqInsert(cmp, l + [d] + r, k, memoryOk) == (l + [d] + s, c)
    ensures var (s, c) := SeqRemove(cmp, r, k); SeqRemove(cmp, l + [d] + r, k) == (l + [d] + s, c)
  {
    AllParts(cmp, l, d, r, k);
    hide Order, Sorted, Part;
    var a, m := Part(cmp, r, k, Less), Part(cmp, r, k, More);
    RegroupTail(l + [d], a, [k], m);
  }

  lemma RegroupTail<T>(a: seq<T>, b: seq<T>, c: seq<T>, d: seq<T>)
    ensures (a + b) + c + d == a + (b + c + d)
    ensures (a + b) + d == a + (b + d)
  {
  }

  lemma DictionaryHere<T(!new)>(cmp: (T, T) -> int, l: seq<T>, d: T, r: seq<T>, k: T, memoryOk: bool)
    requires Order(cmp) && Sorted(cmp, l + [d] + r) && cmp(k, d) == 0
    ensures SeqSearch(cmp, l + [d] + r, k) == Some(d)
    ensures SeqInsert(cmp, l + [d] + r, k, memoryOk) == (l + [d] + r, 0)
    ensures SeqRemove(cmp, l + [d] + r, k) == (l + r, 0)
  {
    AllParts(cmp, l, d, r, k);
  }

  // ---------------------------------------------------------------- refinement

  // Search, insert and remove on a search tree are the dictionary operations on its
  // in-order sequence: status, answer and contents.
  lemma {:induction false} SearchRefines<T(!new)>(cmp: (T, T) -> int, t: Tree<T>, k: T)
    requires Order(cmp) && Sorted(cmp, Inorder(t))
    ensures Search(cmp, t, k) == SeqSearch(cmp, Inorder(t), k)
  {
    if t.Node? {
      var l, d, r := Inorder(t.left), t.data, Inorder(t.right);
      SortedAround(cmp, l, d, r);
      if cmp(k, d) < 0 {
        SearchRefines(cmp, t.left, k);
        DictionaryLeft(cmp, l, d, r, k, true);
      } else if cmp(k, d) > 0 {
        SearchRefines(cmp, t.right, k);
        DictionaryRight(cmp, l, d, r, k, true);
      } else {
        DictionaryHere(cmp, l, d, r, k, true);
      }
    }
  }

  lemma {:induction false} InsertRefines<T(!new)>(cmp: (T, T) -> int, t: Tree<T>, x: T, memoryOk: bool)
    requires Order(cmp) && Sorted(cmp, Inorder(t))
    ensures Inorder(Insert(cmp, t, x, memoryOk).0) == SeqInsert(cmp, Inorder(t), x, memoryOk).0
    ensures Insert(cmp, t, x, memoryOk).1 == SeqInsert(cmp, Inorder(t), x, memoryOk).1
  {
    if t.Node? {
      var l, d, r := Inorder(t.left), t.data, Inorder(t.right);
      SortedAround(cmp, l, d, r);
      hide Order, Sorted, SeqInsert;
      if cmp(x, d) < 0 {
        InsertRefines(cmp, t.left, x, memoryOk);
        DictionaryLeft(cmp, l, d, r, x, memoryOk);
      } else if cmp(x, d) > 0 {
        InsertRefines(cmp, t.right, x, memoryOk);
        DictionaryRight(cmp, l, d, r, x, memoryOk);
      } else {
        DictionaryHere(cmp, l, d, r, x, memoryOk);
      }
    }
  }

  lemma {:induction false} MinIsFirst<T>(t: Tree<T>)
    requires t.Node?
    ensures Inorder(t) != [] && Min(t) == Inorder(t)[0]
  {
    if t.left.Node? {
      MinIsFirst(t.left);
    }
  }

  // Removing the first of a sorted sequence leaves the rest.
  lemma RemoveFirst<T(!new)>(cmp: (T, T) -> int, s: seq<T>)
    requires Order(cmp) && Sorted(cmp, s) && s != []
    ensures SeqRemove(cmp, s, s[0]) == (s[1..], 0)
  {
    assert s == [] + [s[0]] + s[1..];
    DictionaryHere(cmp, [], s[0], s[1..], s[0], true);
    assert [] + s[1..] == s[1..];
  }

  // In-place deletion takes out exactly the element that matches, successor copy and
  // second removal included; it fails exactly when there is none, and then the tree
  // keeps its shape.
  lemma {:induction false} RemoveRefines<T(!new)>(cmp: (T, T) -> int, t: Tree<T>, k: T)
    requires Order(cmp) && Sorted(cmp, Inorder(t))
    ensures Inorder(Remove(cmp, t, k).0) == SeqRemove(cmp, Inorder(t), k).0
    ensures Remove(cmp, t, k).1 == SeqRemove(cmp, Inorder(t), k).1
    ensures Remove(cmp, t, k).1 == -1 ==> Remove(cmp, t, k).0 == t
    decreases t
  {
    if t.Node? {
      var l, d, r := Inorder(t.left), t.data, Inorder(t.right);
      SortedAround(cmp, l, d, r);
      hide Order, Sorted, SeqRemove;
      if cmp(k, d) < 0 {
        RemoveRefines(cmp, t.left, k);
        DictionaryLeft(cmp, l, d, r, k, true);
      } else if cmp(k, d) > 0 {
        RemoveRefines(cmp, t.right, k);
        DictionaryRight(cmp, l, d, r, k, true);
      } else {
        if t.left.Node? && t.right.Node? {
          RemoveRefines(cmp, t.right, Min(t.right));
          MinIsFirst(t.right);
          RemoveFirst(cmp, r);
        }
        RemoveHere(cmp, t, k);
      }
    }
  }

  lemma RemoveHere<T(!new)>(cmp: (T, T) -> int, t: Tree<T>, k: T)
    requires Order(cmp) && t.Node? && Sorted(cmp, Inorder(t)) && cmp(k, t.data) == 0
    requires t.left.Node? && t.right.Node? ==>
               && Inorder(t.right) != [] && Min(t.right) == Inorder(t.right)[0]
               && Inorder(Remove(cmp, t.right, Min(t.right)).0) == Inorder(t.right)[1..]
               && Remove(cmp, t.right, Min(t.right)).1 == 0
    ensures (Inorder(Remove(cmp, t, k).0), Remove(cmp, t, k).1) == SeqRemove(cmp, Inorder(t), k)
    ensures Remove(cmp, t, k).1 == 0
  {
    var l, d, r := Inorder(t.left), t.data, Inorder(t.right);
    DictionaryHere(cmp, l, d, r, k, true);
    hide Order, Sorted, SeqRemove;
    if t.left.Leaf? {
      NoTail(r);
    } else if t.right.Leaf? {
      NoTail(l);
    } else {
      Rejoin(l, r);
    }
  }

  lemma Rejoin<T>(l: seq<T>, r: seq<T>)
    requires r != []
    ensures l + [r[0]] + r[1..] == l + r
  {
  }
}
