/** Insertion (put) into the left-leaning red-black tree. */
module Insertion {
  import opened AssocList
  import opened RedBlack

  /** put(h, key, val).  An empty position receives a new red node, and
      the second component reports that a node was created (the code's
      `rbtreeSize += 1`).  An equal key has its value overwritten in place
      and is returned without rebalancing.  Otherwise the descent goes
      right or left and Balance runs on the way back up. */
  function Put<V>(h: Tree<V>, key: int, val: V): (r: (Tree<V>, bool))
    ensures r.0.Node?
  {
    match h
    case Leaf => (Node(Red, Leaf, key, val, Leaf), true)
    case Node(c, l, k, v, rt) =>
      if k < key then
        var (d, added) := Put(rt, key, val);
        (Balance(Node(c, l, k, v, d)), added)
      else if k > key then
        var (d, added) := Put(l, key, val);
        (Balance(Node(c, d, k, v, rt)), added)
      else
        (Node(c, l, k, val, rt), false)
  }

  /** On an ordered tree, put stores `val` under `key` in the in-order
      sequence: the old value of an equal key is replaced, any other key
      is inserted at its sorted position, and nothing else changes. */
  lemma {:induction false} PutEntries<V>(h: Tree<V>, key: int, val: V)
    requires Ordered(h)
    ensures Entries(Put(h, key, val).0) == Insert(Entries(h), key, val)
  {
    match h
    case Leaf =>
    case Node(c, l, k, v, rt) =>
      OrderedNode(h);
      if k < key {
        PutEntries(rt, key, val);
        var d := Put(rt, key, val).0;
        assert Put(h, key, val).0 == Balance(Node(c, l, k, v, d));
        InsertRightEntries(h, d, key, val);
      } else if k > key {
        PutEntries(l, key, val);
        var d := Put(l, key, val).0;
        assert Put(h, key, val).0 == Balance(Node(c, d, k, v, rt));
        InsertLeftEntries(h, d, key, val);
      } else {
        assert Put(h, key, val).0 == h.(val := val);
        InsertHereEntries(h, val);
      }
  }

  /** The step of PutEntries that descends right. */
  lemma InsertRightEntries<V>(h: Tree<V>, d: Tree<V>, key: int, val: V)
    requires h.Node? && Ordered(h) && h.key < key
    requires Entries(d) == Insert(Entries(h.right), key, val)
    ensures Entries(Node(h.color, h.left, h.key, h.val, d)) == Insert(Entries(h), key, val)
  {
    var a := Entries(h.left) + [Entry(h.key, h.val)];
    assert AllBelow(a, key) by { OrderedNode(h); }
    InsertAfter(a, Entries(h.right), key, val);
  }

  /** The step of PutEntries that overwrites the value at the node. */
  lemma InsertHereEntries<V>(h: Tree<V>, val: V)
    requires h.Node? && Ordered(h)
    ensures Entries(h.(val := val)) == Insert(Entries(h), h.key, val)
  {
    assert AllBelow(Entries(h.left), h.key) by { OrderedNode(h); }
    InsertReplaces(Entries(h.left), Entry(h.key, h.val), Entries(h.right), val);
  }

  /** The step of PutEntries that descends left. */
  lemma InsertLeftEntries<V>(h: Tree<V>, d: Tree<V>, key: int, val: V)
    requires h.Node? && Ordered(h) && key < h.key
    requires Entries(d) == Insert(Entries(h.left), key, val)
    ensures Entries(Node(h.color, d, h.key, h.val, h.right)) == Insert(Entries(h), key, val)
  {
    var b := [Entry(h.key, h.val)] + Entries(h.right);
    assert AllAbove(b, key) by { OrderedNode(h); }
    assert Entries(h) == Entries(h.left) + b;
    assert Entries(Node(h.color, d, h.key, h.val, h.right)) == Entries(d) + b;
    InsertBefore(Entries(h.left), b, key, val);
  }

  /** On an ordered tree, put reports a new node exactly when `key` was
      absent, so the map's count grows by one exactly then. */
  lemma {:induction false} PutAdded<V>(h: Tree<V>, key: int, val: V)
    requires Ordered(h)
    ensures Put(h, key, val).1 <==> key !in Keys(Entries(h))
  {
    match h
    case Leaf =>
    case Node(c, l, k, v, rt) =>
      OrderedNode(h);
      KeysAppend(Entries(l) + [Entry(k, v)], Entries(rt));
      KeysAppend(Entries(l), [Entry(k, v)]);
      assert Keys(Entries(h)) == Keys(Entries(l)) + {k} + Keys(Entries(rt));
      if k < key {
        PutAdded(rt, key, val);
        assert Put(h, key, val).1 == Put(rt, key, val).1;
        assert key !in Keys(Entries(l));
      } else if k > key {
        PutAdded(l, key, val);
        assert Put(h, key, val).1 == Put(l, key, val).1;
        assert key !in Keys(Entries(rt));
      }
  }

  /** What put leaves behind in a subtree: black balance, no red right
      link at the top, and the 2-3 shape below the top. */
  ghost predicate PutShape<V>(t: Tree<V>) {
    t.Node? && Balanced(t) && !IsRed(t.right) && LeftLeaning(t.left) && LeftLeaning(t.right)
  }

  /** Balance after the right subtree `d` grew: `d` may have come back red,
      and a red right link is leaned left or split. */
  lemma BalanceAfterRight<V>(c: Color, l: Tree<V>, k: int, v: V, d: Tree<V>)
    requires Balanced(l) && LeftLeaning(l) && Balanced(d) && LeftLeaning(d)
    requires BlackHeight(l) == BlackHeight(d)
    requires c == Red ==> !IsRed(l)
    ensures var t := Balance(Node(c, l, k, v, d));
      PutShape(t) && BlackHeight(t) == BlackHeight(l) + (if c == Black then 1 else 0)
      && (c == Black ==> LeftLeaning(t))
  {
    var n := Node(c, l, k, v, d);
    if IsRed(d) && !IsRed(l) {
      var a := RotateLeft(n);
      assert a == Node(c, Node(Red, l, k, v, d.left), d.key, d.val, d.right);
      assert Balance(n) == a;
    } else if IsRed(d) {
      assert Balance(n) == FlipColors(n);
    } else {
      assert Balance(n) == n;
    }
  }

  /** Balance after the left subtree `d` grew: `d` may have come back as a
      red node with a red left child, which is rotated right and split. */
  lemma BalanceAfterLeft<V>(c: Color, d: Tree<V>, k: int, v: V, rt: Tree<V>)
    requires PutShape(d) && Balanced(rt) && LeftLeaning(rt) && !IsRed(rt)
    requires BlackHeight(d) == BlackHeight(rt)
    requires !IsRed(d) ==> LeftLeaning(d)
    requires c == Red ==> LeftLeaning(d)
    ensures var t := Balance(Node(c, d, k, v, rt));
      PutShape(t) && BlackHeight(t) == BlackHeight(rt) + (if c == Black then 1 else 0)
      && (c == Black ==> LeftLeaning(t))
  {
    var n := Node(c, d, k, v, rt);
    if IsRed(d) && IsRed(d.left) {
      assert c == Black;
      assert !IsRed(d.left.left) && !IsRed(d.left.right) && !IsRed(d.right);
      assert BlackHeight(d.left) == BlackHeight(d) == BlackHeight(d.right);
      var b := RotateRight(n);
      assert b == Node(c, d.left, d.key, d.val, Node(Red, d.right, k, v, rt));
      var t := FlipColors(b);
      assert Balance(n) == t;
      assert t.left == d.left.(color := Black);
      assert t.right == Node(Black, d.right, k, v, rt);
      assert t.color == Red;
      assert LeftLeaning(t.left);
      assert LeftLeaning(t.right);
      assert Balanced(d.left) && Balanced(d.right);
      assert Balanced(t.left) && Balanced(t.right);
      assert BlackHeight(t.left) == BlackHeight(t.right);
      assert BlackHeight(t) == BlackHeight(rt) + 1;
    } else {
      assert Balance(n) == n;
    }
  }

  /** Put keeps black balance and black height and leaves the 2-3 shape
      below the top; under a black (or missing) root the result is a
      complete left-leaning red-black tree.  A red input may come back as
      a red node with a red left child, which the caller's Balance (or the
      final blackening of the root) repairs. */
  lemma {:induction false} PutKeepsInvariants<V>(h: Tree<V>, key: int, val: V)
    requires IsLLRB(h)
    ensures var t := Put(h, key, val).0;
      PutShape(t) && BlackHeight(t) == BlackHeight(h) && (!IsRed(h) ==> LeftLeaning(t))
  {
    match h
    case Leaf =>
    case Node(c, l, k, v, rt) =>
      if k < key {
        PutKeepsInvariants(rt, key, val);
        var d := Put(rt, key, val).0;
        assert Put(h, key, val).0 == Balance(Node(c, l, k, v, d));
        BalanceAfterRight(c, l, k, v, d);
      } else if k > key {
        PutKeepsInvariants(l, key, val);
        var d := Put(l, key, val).0;
        assert Put(h, key, val).0 == Balance(Node(c, d, k, v, rt));
        BalanceAfterLeft(c, d, k, v, rt);
      }
  }
}
