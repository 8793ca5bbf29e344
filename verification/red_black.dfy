/** The node representation of the left-leaning red-black tree, the
    abstractions it is specified against, and the rotation and colour
    primitives every operation of the map is built from.  Each primitive
    takes a subtree and returns its (possibly rotated) replacement. */
module RedBlack {
  import opened AssocList

  datatype Color = Red | Black

  datatype Tree<V> = Leaf | Node(color: Color, left: Tree<V>, key: int, val: V, right: Tree<V>)

  /** A missing child counts as black. */
  predicate IsRed<V>(t: Tree<V>) {
    t.Node? && t.color == Red
  }

  function Toggle(c: Color): Color {
    if c == Red then Black else Red
  }

  // ----- abstractions -----

  /** The in-order key/value sequence. */
  ghost function Entries<V>(t: Tree<V>): seq<Entry<V>> {
    match t
    case Leaf => []
    case Node(_, l, k, v, r) => Entries(l) + [Entry(k, v)] + Entries(r)
  }

  /** Binary-search-tree order: in-order keys strictly increase. */
  ghost predicate Ordered<V>(t: Tree<V>) {
    Sorted(Entries(t))
  }

  /** Black nodes on the leftmost path down from `t`. */
  ghost function BlackHeight<V>(t: Tree<V>): nat {
    match t
    case Leaf => 0
    case Node(c, l, _, _, _) => BlackHeight(l) + (if c == Black then 1 else 0)
  }

  /** Perfect black balance: every path from `t` down to a missing child
      passes the same number of black nodes. */
  ghost predicate Balanced<V>(t: Tree<V>) {
    match t
    case Leaf => true
    case Node(_, l, _, _, r) => Balanced(l) && Balanced(r) && BlackHeight(l) == BlackHeight(r)
  }

  /** The 2-3 tree shape: no node has a red right child, and no red node
      has a red left child. */
  ghost predicate LeftLeaning<V>(t: Tree<V>) {
    match t
    case Leaf => true
    case Node(c, l, _, _, r) =>
      !IsRed(r) && !(c == Red && IsRed(l)) && LeftLeaning(l) && LeftLeaning(r)
  }

  /** The left-leaning red-black invariants (the root may still be red). */
  ghost predicate IsLLRB<V>(t: Tree<V>) {
    Balanced(t) && LeftLeaning(t)
  }

  /** What an ordered node tells a descent about its two subtrees. */
  lemma OrderedNode<V>(h: Tree<V>)
    requires h.Node?
    ensures Ordered(h) ==> Ordered(h.left) && Ordered(h.right)
    ensures Ordered(h) ==> AllBelow(Entries(h.left), h.key) && AllAbove(Entries(h.right), h.key)
  {
    SortedSplit(Entries(h.left), Entry(h.key, h.val), Entries(h.right));
  }

  /** In an ordered tree a key below the node's key lives on the left. */
  lemma KeyInLeft<V>(h: Tree<V>, key: int)
    requires h.Node? && Ordered(h) && key in Keys(Entries(h)) && key < h.key
    ensures key in Keys(Entries(h.left))
  {
    OrderedNode(h);
    KeysAppend(Entries(h.left) + [Entry(h.key, h.val)], Entries(h.right));
    KeysAppend(Entries(h.left), [Entry(h.key, h.val)]);
  }

  /** In an ordered tree a key above the node's key lives on the right. */
  lemma KeyInRight<V>(h: Tree<V>, key: int)
    requires h.Node? && Ordered(h) && key in Keys(Entries(h)) && h.key < key
    ensures key in Keys(Entries(h.right))
  {
    OrderedNode(h);
    KeysAppend(Entries(h.left) + [Entry(h.key, h.val)], Entries(h.right));
    KeysAppend(Entries(h.left), [Entry(h.key, h.val)]);
  }

  /** What a valid node tells a descent about its two subtrees. */
  lemma LLRBNode<V>(h: Tree<V>)
    requires h.Node? && IsLLRB(h)
    ensures IsLLRB(h.left) && IsLLRB(h.right) && !IsRed(h.right)
    ensures BlackHeight(h.left) == BlackHeight(h.right)
    ensures IsRed(h) ==> !IsRed(h.left)
    ensures !IsRed(h.left) && h.left.Node? ==> BlackHeight(h.left) > 0 && h.right.Node?
    ensures h.left.Leaf? ==> h.right.Leaf?
  {
    assert !IsRed(h.left) && h.left.Node? ==> BlackHeight(h.left) > 0;
    assert h.right.Node? && !IsRed(h.right) ==> BlackHeight(h.right) > 0;
  }

  // ----- structural queries -----

  /** Number of nodes, counted by full traversal. */
  function Size<V>(t: Tree<V>): (n: nat)
    ensures n == |Entries(t)|
  {
    match t
    case Leaf => 0
    case Node(_, l, _, _, r) => Size(l) + Size(r) + 1
  }

  /** Number of nodes on the longest downward path. */
  function Height<V>(t: Tree<V>): nat {
    match t
    case Leaf => 0
    case Node(_, l, _, _, r) =>
      var a := Height(l);
      var b := Height(r);
      (if a < b then b else a) + 1
  }

  // ----- primitives -----

  /** Promote the red right child; it takes over the old root's colour and
      the old root becomes its red left child. */
  function RotateLeft<V>(h: Tree<V>): (r: Tree<V>)
    requires h.Node? && IsRed(h.right)
    ensures r.Node? && r.key == h.right.key && r.color == h.color
    ensures r.left.Node? && r.left.key == h.key && r.left.color == Red
    ensures Entries(r) == Entries(h)
    ensures Balanced(h) ==> Balanced(r) && BlackHeight(r) == BlackHeight(h)
  {
    var b := h.right;
    var a := Node(Red, h.left, h.key, h.val, b.left);
    assert Entries(h) == Entries(h.left) + [Entry(h.key, h.val)]
                         + (Entries(b.left) + [Entry(b.key, b.val)] + Entries(b.right));
    assert Entries(a) == Entries(h.left) + [Entry(h.key, h.val)] + Entries(b.left);
    assert Balanced(h) ==>
      Balanced(h.left) && Balanced(b) && Balanced(b.left) && Balanced(b.right) &&
      BlackHeight(h.left) == BlackHeight(b) == BlackHeight(b.left) == BlackHeight(b.right);
    assert Balanced(h) ==> Balanced(a) && BlackHeight(a) == BlackHeight(h.left);
    Node(h.color, a, b.key, b.val, b.right)
  }

  /** Promote the red left child; it takes over the old root's colour and
      the old root becomes its red right child. */
  function RotateRight<V>(h: Tree<V>): (r: Tree<V>)
    requires h.Node? && IsRed(h.left)
    ensures r.Node? && r.key == h.left.key && r.color == h.color
    ensures r.right.Node? && r.right.key == h.key && r.right.color == Red
    ensures Entries(r) == Entries(h)
    ensures Balanced(h) ==> Balanced(r) && BlackHeight(r) == BlackHeight(h)
  {
    var b := h.left;
    var a := Node(Red, b.right, h.key, h.val, h.right);
    assert Entries(h) == (Entries(b.left) + [Entry(b.key, b.val)] + Entries(b.right))
                         + [Entry(h.key, h.val)] + Entries(h.right);
    assert Entries(a) == Entries(b.right) + [Entry(h.key, h.val)] + Entries(h.right);
    assert Balanced(h) ==>
      Balanced(h.right) && Balanced(b) && Balanced(b.left) && Balanced(b.right) &&
      BlackHeight(b.left) == BlackHeight(b) == BlackHeight(b.right) == BlackHeight(h.right);
    assert Balanced(h) ==> Balanced(a) && BlackHeight(a) == BlackHeight(b.right);
    Node(h.color, b.left, b.key, b.val, a)
  }

  /** Toggle the colour of `h` and of both its children. */
  function FlipColors<V>(h: Tree<V>): (r: Tree<V>)
    requires h.Node? && h.left.Node? && h.right.Node?
    ensures r.Node? && r.left.Node? && r.right.Node?
    ensures r.color != h.color && r.left.color != h.left.color && r.right.color != h.right.color
    ensures r.left.(color := h.left.color) == h.left
    ensures r.right.(color := h.right.color) == h.right
    ensures r.(color := h.color, left := h.left, right := h.right) == h
    ensures Entries(r) == Entries(h)
  {
    Node(Toggle(h.color),
         h.left.(color := Toggle(h.left.color)),
         h.key, h.val,
         h.right.(color := Toggle(h.right.color)))
  }

  /** Borrow a red link from the right so that the descent may enter the
      left subtree.  The code dereferences both children, and its left
      rotation asserts the right child is red after the first flip. */
  function MoveRedLeft<V>(h: Tree<V>): (r: Tree<V>)
    requires h.Node? && h.left.Node? && h.right.Node?
    requires IsRed(h.right.left) ==> h.right.color == Black
    ensures r.Node? && Entries(r) == Entries(h)
  {
    var f := FlipColors(h);
    if IsRed(f.right.left) then
      FlipColors(RotateLeft(f.(right := RotateRight(f.right))))
    else
      f
  }

  /** Borrow a red link from the left so that the descent may enter the
      right subtree; the code asserts `h` is red and both children black. */
  function MoveRedRight<V>(h: Tree<V>): (r: Tree<V>)
    requires h.Node? && h.color == Red
    requires h.left.Node? && h.left.color == Black
    requires h.right.Node? && h.right.color == Black
    ensures r.Node? && Entries(r) == Entries(h)
  {
    var f := FlipColors(h);
    if IsRed(f.left.left) then FlipColors(RotateRight(f)) else f
  }

  /** The rebalancing step run on every unwind: lean a lone red right link
      left, split a red-red left chain, then flip a node with two red
      children. */
  function Balance<V>(h: Tree<V>): (r: Tree<V>)
    requires h.Node?
    ensures r.Node? && Entries(r) == Entries(h)
    ensures LeftLeaning(h) ==> r == h
  {
    assert LeftLeaning(h) ==> !IsRed(h.right) && LeftLeaning(h.left);
    assert LeftLeaning(h.left) && IsRed(h.left) ==> !IsRed(h.left.left);
    var a := if IsRed(h.right) && !IsRed(h.left) then RotateLeft(h) else h;
    var b := if IsRed(a.left) && IsRed(a.left.left) then RotateRight(a) else a;
    if IsRed(b.left) && IsRed(b.right) then FlipColors(b) else b
  }

  /** Two colour flips restore the node. */
  lemma FlipColorsTwice<V>(h: Tree<V>)
    requires h.Node? && h.left.Node? && h.right.Node?
    ensures FlipColors(FlipColors(h)) == h
  {
  }
}
