// The order of the three walks of a search tree, told by where elements sit in it.
module TreeWalks {
  import opened Common
  import opened TreeSpec

  datatype Kind = Pre | Middle | Post

  function Walk<T>(kind: Kind, t: Tree<T>): seq<T>
  {
    match kind
    case Pre => Preorder(t)
    case Middle => Inorder(t)
    case Post => Postorder(t)
  }

  // x sits somewhere in t.
  ghost predicate Sits<T>(t: Tree<T>, x: T)
  {
    t.Node? && (t.data == x || Sits(t.left, x) || Sits(t.right, x))
  }

  ghost predicate Subtree<T>(s: Tree<T>, t: Tree<T>)
  {
    s == t || (t.Node? && (Subtree(s, t.left) || Subtree(s, t.right)))
  }

  ghost predicate NoRepeats<T>(w: seq<T>)
  {
    forall i, j | 0 <= i < j < |w| :: w[i] != w[j]
  }

  // x is visited, and after it y.
  ghost predicate Precedes<T>(w: seq<T>, x: T, y: T)
  {
    exists i, j :: 0 <= i < j < |w| && w[i] == x && w[j] == y
  }

  // Every walk visits what sits in the tree, as many visits as there are nodes.
  lemma {:induction false} WalkMembers<T>(kind: Kind, t: Tree<T>)
    ensures |Walk(kind, t)| == Size(t)
    ensures forall x :: x in Walk(kind, t) <==> Sits(t, x)
  {
    if t.Node? {
      WalkMembers(kind, t.left);
      WalkMembers(kind, t.right);
    }
  }

  lemma WalkIs<T>(kind: Kind, t: Tree<T>)
    requires t.Node?
    ensures var l, d, r := Walk(kind, t.left), [t.data], Walk(kind, t.right);
            Walk(kind, t) == match kind case Pre => d + l + r case Middle => l + d + r case Post => l + r + d
  {
  }

  // What a walk visits before and after one side of a node.
  lemma Around<T>(kind: Kind, t: Tree<T>, left: bool) returns (p: seq<T>, q: seq<T>)
    requires t.Node?
    ensures Walk(kind, t) == p + Walk(kind, if left then t.left else t.right) + q
  {
    hide Walk;
    WalkIs(kind, t);
    var l, d, r := Walk(kind, t.left), [t.data], Walk(kind, t.right);
    match kind {
      case Pre => if left { p, q := d, r; } else { p, q := d + l, []; }
      case Middle => if left { p, q := [], d + r; } else { p, q := l + d, []; }
      case Post => if left { p, q := [], r + d; } else { p, q := l, d; }
    }
  }

  lemma Nested<T>(p: seq<T>, a: seq<T>, w: seq<T>, b: seq<T>, q: seq<T>)
    ensures p + (a + w + b) + q == (p + a) + w + (b + q)
  {
  }

  // The walk of a subtree is a stretch of the walk of the tree.
  lemma {:induction false} Stretch<T>(kind: Kind, s: Tree<T>, t: Tree<T>) returns (a: seq<T>, b: seq<T>)
    requires Subtree(s, t)
    ensures Walk(kind, t) == a + Walk(kind, s) + b
    decreases t
  {
    hide Walk;
    a, b := [], [];
    if s != t {
      var left := Subtree(s, t.left);
      var side := if left then t.left else t.right;
      var p, q := Around(kind, t, left);
      a, b := Stretch(kind, s, side);
      Nested(p, a, Walk(kind, s), b, q);
      a, b := p + a, b + q;
    }
  }

  lemma PrecedesAcross<T>(a: seq<T>, b: seq<T>, c: seq<T>, d: seq<T>, e: seq<T>, x: T, y: T)
    requires x in b && y in d
    ensures Precedes(a + b + c + d + e, x, y)
  {
    var i :| 0 <= i < |b| && b[i] == x;
    var j :| 0 <= j < |d| && d[j] == y;
    var w := a + b + c + d + e;
    assert w[|a| + i] == x && w[|a| + |b| + |c| + j] == y;
  }

  lemma PrecedesWithin<T>(a: seq<T>, w: seq<T>, b: seq<T>, x: T, y: T)
    requires Precedes(w, x, y)
    ensures Precedes(a + w + b, x, y)
  {
    var i, j :| 0 <= i < j < |w| && w[i] == x && w[j] == y;
    var whole := a + w + b;
    assert whole[|a| + i] == x && whole[|a| + j] == y;
  }

  // In w, elements below a node come in the order of the walk: the left subtree's before
  // the right one's, and the node's own before both, between them, or after both.
  ghost predicate InOrder<T>(kind: Kind, s: Tree<T>, x: T, y: T, w: seq<T>)
    requires s.Node?
  {
    && (Sits(s.left, x) && Sits(s.right, y) ==> Precedes(w, x, y))
    && (kind == Pre && (Sits(s.left, x) || Sits(s.right, x)) ==> Precedes(w, s.data, x))
    && (kind == Post && (Sits(s.left, x) || Sits(s.right, x)) ==> Precedes(w, x, s.data))
    && (kind == Middle && Sits(s.left, x) ==> Precedes(w, x, s.data))
    && (kind == Middle && Sits(s.right, y) ==> Precedes(w, s.data, y))
  }

  lemma AtNode<T>(kind: Kind, s: Tree<T>, x: T, y: T)
    requires s.Node?
    ensures InOrder(kind, s, x, y, Walk(kind, s))
  {
    WalkMembers(kind, s.left);
    WalkMembers(kind, s.right);
    hide Sits, Precedes;
    var l, d, r, w := Walk(kind, s.left), [s.data], Walk(kind, s.right), Walk(kind, s);
    match kind {
      case Pre =>
        assert w == [] + d + [] + l + r == [] + d + l + r + [] == d + l + [] + r + [];
        if x in l { PrecedesAcross([], d, [], l, r, s.data, x); }
        if x in r { PrecedesAcross([], d, l, r, [], s.data, x); }
        if x in l && y in r { PrecedesAcross(d, l, [], r, [], x, y); }
      case Middle =>
        assert w == [] + l + [] + d + r == [] + l + d + r + [] == l + d + [] + r + [];
        if x in l { PrecedesAcross([], l, [], d, r, x, s.data); }
        if y in r { PrecedesAcross(l, d, [], r, [], s.data, y); }
        if x in l && y in r { PrecedesAcross([], l, d, r, [], x, y); }
      case Post =>
        assert w == [] + l + r + d + [] == l + r + [] + d + [] == [] + l + [] + r + d;
        if x in l { PrecedesAcross([], l, r, d, [], x, s.data); }
        if x in r { PrecedesAcross(l, r, [], d, [], x, s.data); }
        if x in l && y in r { PrecedesAcross([], l, [], r, d, x, y); }
    }
  }

  // All three walks visit every element of a left subtree before every element of its
  // sibling; preorder visits a node before both its subtrees, inorder between them,
  // postorder after both.
  lemma WalkOrder<T>(kind: Kind, t: Tree<T>, s: Tree<T>, x: T, y: T)
    requires Subtree(s, t) && s.Node?
    ensures InOrder(kind, s, x, y, Walk(kind, t))
  {
    hide Sits, Precedes, Walk, Subtree;
    AtNode(kind, s, x, y);
    var a, b := Stretch(kind, s, t);
    var w := Walk(kind, s);
    if Precedes(w, x, y) { PrecedesWithin(a, w, b, x, y); }
    if Precedes(w, s.data, x) { PrecedesWithin(a, w, b, s.data, x); }
    if Precedes(w, x, s.data) { PrecedesWithin(a, w, b, x, s.data); }
    if Precedes(w, s.data, y) { PrecedesWithin(a, w, b, s.data, y); }
  }

  // Each element of a search tree is visited once, so that order is the only one.
  lemma {:induction false} VisitedOnce<T(!new)>(cmp: (T, T) -> int, kind: Kind, t: Tree<T>)
    requires Order(cmp) && Bst(cmp, t)
    ensures NoRepeats(Walk(kind, t))
  {
    if t.Node? {
      VisitedOnce(cmp, kind, t.left);
      VisitedOnce(cmp, kind, t.right);
      SidesApart(cmp, kind, t);
      var l, d, r := Walk(kind, t.left), [t.data], Walk(kind, t.right);
      hide Walk, Bst, Order, NoRepeats;
      OneElement(t.data);
      match kind {
        case Pre => JoinedOnce(d, l); JoinedOnce(d + l, r);
        case Middle => JoinedOnce(l, d); JoinedOnce(l + d, r);
        case Post => JoinedOnce(l, r); JoinedOnce(l + r, d);
      }
      WalkIs(kind, t);
    }
  }

  lemma OneElement<T>(x: T)
    ensures NoRepeats([x])
  {
  }

  lemma JoinedOnce<T>(a: seq<T>, b: seq<T>)
    requires NoRepeats(a) && NoRepeats(b) && forall x | x in a :: x !in b
    ensures NoRepeats(a + b)
  {
    forall i, j | 0 <= i < j < |a + b| ensures (a + b)[i] != (a + b)[j] {
      if i < |a| <= j { assert a[i] in a && b[j - |a|] in b; }
    }
  }

  lemma SidesApart<T(!new)>(cmp: (T, T) -> int, kind: Kind, t: Tree<T>)
    requires Order(cmp) && Bst(cmp, t) && t.Node?
    ensures var l, r := Walk(kind, t.left), Walk(kind, t.right);
            (forall x | x in l :: x != t.data && x !in r) && t.data !in r
  {
    WalkMembers(kind, t.left);
    WalkMembers(kind, t.right);
    WalkMembers(Middle, t.left);
    WalkMembers(Middle, t.right);
    BstIffSorted(cmp, t);
    SortedAround(cmp, Inorder(t.left), t.data, Inorder(t.right));
    forall x | x in Walk(kind, t.left) ensures x != t.data && x !in Walk(kind, t.right) {
      assert x in Inorder(t.left);
    }
  }
}
