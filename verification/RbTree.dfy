/** Ordered key sets, in the way rbtree.c offers them: search to the left,
    first, last, next and previous.  Keys are integers. */
module RbTree {
  import opened Sequences

  ghost predicate IsFirst(keys: set<int>, r: Option<int>) {
    match r
    case None => keys == {}
    case Some(k) => k in keys && forall x :: x in keys ==> k <= x
  }

  ghost predicate IsLast(keys: set<int>, r: Option<int>) {
    match r
    case None => keys == {}
    case Some(k) => k in keys && forall x :: x in keys ==> x <= k
  }

  /** The first key after `k`. */
  ghost predicate IsNext(keys: set<int>, k: int, r: Option<int>) {
    match r
    case None => forall x :: x in keys ==> x <= k
    case Some(n) => n in keys && k < n && forall x :: x in keys && k < x ==> n <= x
  }

  /** The last key before `k`. */
  ghost predicate IsPrevious(keys: set<int>, k: int, r: Option<int>) {
    match r
    case None => forall x :: x in keys ==> k <= x
    case Some(p) => p in keys && p < k && forall x :: x in keys && x < k ==> x <= p
  }

  /** The last key not after `k`. */
  ghost predicate IsLessEqual(keys: set<int>, k: int, r: Option<int>) {
    match r
    case None => forall x :: x in keys ==> k < x
    case Some(p) => p in keys && p <= k && forall x :: x in keys && x <= k ==> x <= p
  }

  method Pick(s: set<int>) returns (x: int)
    requires s != {}
    ensures x in s
  {
    ghost var y := AMember(s);
    x :| x in s;
  }

  method First(keys: set<int>) returns (r: Option<int>)
    ensures IsFirst(keys, r)
  {
    r := None;
    var rest := keys;
    while rest != {}
      invariant rest <= keys && IsFirst(keys - rest, r)
      decreases rest
    {
      var x := Pick(rest);
      assert keys - (rest - {x}) == (keys - rest) + {x};
      rest := rest - {x};
      if r.None? || x < r.value {
        r := Some(x);
      }
    }
    assert keys - rest == keys;
  }

  method Last(keys: set<int>) returns (r: Option<int>)
    ensures IsLast(keys, r)
  {
    r := None;
    var rest := keys;
    while rest != {}
      invariant rest <= keys && IsLast(keys - rest, r)
      decreases rest
    {
      var x := Pick(rest);
      assert keys - (rest - {x}) == (keys - rest) + {x};
      rest := rest - {x};
      if r.None? || r.value < x {
        r := Some(x);
      }
    }
    assert keys - rest == keys;
  }

  method Next(keys: set<int>, k: int) returns (r: Option<int>)
    ensures IsNext(keys, k, r)
  {
    var part := set x | x in keys && k < x;
    assert forall x :: x in part <==> x in keys && k < x;
    r := First(part);
  }

  method Previous(keys: set<int>, k: int) returns (r: Option<int>)
    ensures IsPrevious(keys, k, r)
  {
    var part := set x | x in keys && x < k;
    assert forall x :: x in part <==> x in keys && x < k;
    r := Last(part);
  }

  // ----- the tree itself

  datatype Tree = Leaf | Node(left: Tree, key: int, right: Tree)

  ghost function Keys(t: Tree): set<int> {
    match t
    case Leaf => {}
    case Node(l, k, r) => Keys(l) + {k} + Keys(r)
  }

  /** Smaller keys to the left, larger keys to the right. */
  ghost predicate Ordered(t: Tree) {
    match t
    case Leaf => true
    case Node(l, k, r) =>
      && Ordered(l) && Ordered(r)
      && (forall x :: x in Keys(l) ==> x < k) && (forall x :: x in Keys(r) ==> k < x)
  }

  /** `rbtree_find_less_equal`: going down from the root finds the last key that
      is not after `k`, whatever the shape of the tree. */
  method Descend(root: Tree, k: int) returns (exact: bool, r: Option<int>)
    requires Ordered(root)
    ensures IsLessEqual(Keys(root), k, r)
    ensures exact <==> k in Keys(root)
    ensures exact ==> r == Some(k)
  {
    var node := root;
    r := None;
    while node.Node?
      invariant Ordered(node) && Keys(node) <= Keys(root)
      invariant r.Some? ==> r.value in Keys(root) && r.value < k && forall x :: x in Keys(node) ==> r.value < x
      invariant forall x :: x in Keys(root) && x <= k && x !in Keys(node) ==> r.Some? && x <= r.value
      decreases node
    {
      if k == node.key {
        return true, Some(k);
      } else if k < node.key {
        node := node.left;
      } else {
        r := Some(node.key);
        node := node.right;
      }
    }
    exact := false;
  }

  /** `rbtree_insert`, before the colours are repaired. */
  function Insert(t: Tree, k: int): Tree {
    match t
    case Leaf => Node(Leaf, k, Leaf)
    case Node(l, x, r) =>
      if k == x then t else if k < x then Node(Insert(l, k), x, r) else Node(l, x, Insert(r, k))
  }

  lemma {:induction false} InsertOrders(t: Tree, k: int)
    requires Ordered(t)
    ensures Ordered(Insert(t, k)) && Keys(Insert(t, k)) == Keys(t) + {k}
  {
    if t.Node? && k < t.key {
      InsertOrders(t.left, k);
    } else if t.Node? && k > t.key {
      InsertOrders(t.right, k);
    }
  }

  /** `rbtree_rotate_left`; `rbtree_rotate_right` undoes it. */
  function RotateLeft(t: Tree): Tree {
    match t
    case Node(a, x, Node(b, y, c)) => Node(Node(a, x, b), y, c)
    case _ => t
  }

  function RotateRight(t: Tree): Tree {
    match t
    case Node(Node(a, x, b), y, c) => Node(a, x, Node(b, y, c))
    case _ => t
  }

  /** The repair of colours only rotates, so it keeps the keys and their order. */
  lemma RotateLeftKeeps(a: Tree, x: int, b: Tree, y: int, c: Tree)
    requires Ordered(Node(a, x, Node(b, y, c)))
    ensures var t := RotateLeft(Node(a, x, Node(b, y, c)));
            Ordered(t) && Keys(t) == Keys(Node(a, x, Node(b, y, c))) && RotateRight(t) == Node(a, x, Node(b, y, c))
  {
    assert Keys(Node(b, y, c)) == Keys(b) + {y} + Keys(c);
    assert y in Keys(Node(b, y, c)) && forall k :: k in Keys(a) ==> k < y;
    assert Keys(Node(a, x, b)) == Keys(a) + {x} + Keys(b);
  }

  lemma RotateRightKeeps(a: Tree, x: int, b: Tree, y: int, c: Tree)
    requires Ordered(Node(Node(a, x, b), y, c))
    ensures var t := RotateRight(Node(Node(a, x, b), y, c));
            Ordered(t) && Keys(t) == Keys(Node(Node(a, x, b), y, c)) && RotateLeft(t) == Node(Node(a, x, b), y, c)
  {
    assert Keys(Node(a, x, b)) == Keys(a) + {x} + Keys(b);
    assert x in Keys(Node(a, x, b)) && forall k :: k in Keys(c) ==> x < k;
    assert Keys(Node(b, y, c)) == Keys(b) + {y} + Keys(c);
  }

  /** A tree with these keys. */
  method TreeOf(keys: set<int>) returns (t: Tree)
    ensures Ordered(t) && Keys(t) == keys
  {
    t := Leaf;
    var rest := keys;
    while rest != {}
      invariant rest <= keys && Ordered(t) && Keys(t) == keys - rest
      decreases rest
    {
      var x := Pick(rest);
      InsertOrders(t, x);
      t, rest := Insert(t, x), rest - {x};
    }
  }

  /** The search on a set of keys, which goes down a tree that has them. */
  method FindLessEqual(keys: set<int>, k: int) returns (exact: bool, r: Option<int>)
    ensures IsLessEqual(keys, k, r)
    ensures exact <==> k in keys
    ensures exact ==> r == Some(k)
  {
    var t := TreeOf(keys);
    exact, r := Descend(t, k);
  }
}
