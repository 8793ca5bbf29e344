/** Deletion from the left-leaning red-black tree: deleteMin, deleteMax
    and deleteNode.  Each descent keeps the node it is about to enter red
    (or with a red left child), borrowing from a sibling with MoveRedLeft
    or MoveRedRight, and rebalances with Balance on the way back up. */
module Deletion {
  import opened AssocList
  import opened RedBlack
  import opened Search

  // ----- what the descents rely on -----

  /** The condition under which deleteMin may enter `h`: a valid subtree
      whose top is red or leans on a red left child. */
  ghost predicate MinReady<V>(h: Tree<V>) {
    h.Node? && IsLLRB(h) && (IsRed(h) || IsRed(h.left))
  }

  /** The one other shape a right descent may enter: a black node whose
      only red link is its right one.  It is what MoveRedRight leaves
      behind as its new right child after borrowing through a rotation. */
  ghost predicate RightLeaning<V>(h: Tree<V>) {
    && h.Node? && h.color == Black && !IsRed(h.left) && IsRed(h.right)
    && Balanced(h) && LeftLeaning(h.left) && LeftLeaning(h.right)
  }

  /** The condition under which deleteMax may enter `h`. */
  ghost predicate MaxReady<V>(h: Tree<V>) {
    MinReady(h) || RightLeaning(h)
  }

  /** The condition under which deleteNode may enter `h` looking for
      `key`: a right-leaning node is only entered from its left. */
  ghost predicate DeleteReady<V>(h: Tree<V>, key: int) {
    MinReady(h) || (RightLeaning(h) && h.key <= key)
  }

  /** What a deletion leaves in place of `h`: a valid subtree of the same
      black height, red only where `h` was red. */
  ghost predicate Shrunk<V>(r: Tree<V>, h: Tree<V>) {
    IsLLRB(r) && BlackHeight(r) == BlackHeight(h) && (IsRed(r) ==> IsRed(h))
  }

  // ----- closed forms of the two borrowing primitives -----

  /** MoveRedLeft either only flips colours or, when the right child's
      left child is red, hands that node up to the top. */
  lemma MoveRedLeftCases<V>(h: Tree<V>)
    requires h.Node? && h.left.Node? && h.right.Node?
    requires IsRed(h.right.left) ==> h.right.color == Black
    ensures var l := h.left.(color := Toggle(h.left.color));
      var r := h.right;
      && (!IsRed(r.left) ==>
            MoveRedLeft(h) == Node(Toggle(h.color), l, h.key, h.val, r.(color := Toggle(r.color))))
      && (IsRed(r.left) ==>
            MoveRedLeft(h) == Node(h.color, Node(Black, l, h.key, h.val, r.left.left),
                                   r.left.key, r.left.val,
                                   Node(Black, r.left.right, r.key, r.val, r.right)))
  {
  }

  /** MoveRedRight either only flips colours or, when the left child's
      left child is red, hands the left child up to the top. */
  lemma MoveRedRightCases<V>(h: Tree<V>)
    requires h.Node? && h.color == Red
    requires h.left.Node? && h.left.color == Black
    requires h.right.Node? && h.right.color == Black
    ensures var l := h.left;
      var r := h.right.(color := Red);
      && (!IsRed(l.left) ==>
            MoveRedRight(h) == Node(Black, l.(color := Red), h.key, h.val, r))
      && (IsRed(l.left) ==>
            MoveRedRight(h) == Node(Red, l.left.(color := Black), l.key, l.val,
                                    Node(Black, l.right, h.key, h.val, r)))
  {
  }

  /** A node without children holds one entry. */
  lemma LoneNode<V>(h: Tree<V>)
    requires h.Node? && h.left.Leaf? && h.right.Leaf?
    ensures Entries(h) == [Entry(h.key, h.val)]
  {
  }

  // ----- rebalancing after a deletion -----

  /** Balance over two valid subtrees of equal black height yields a valid
      subtree of the same black height; it comes out red only if the node
      was red or both children were. */
  lemma BalanceLLRB<V>(c: Color, l: Tree<V>, k: int, v: V, rt: Tree<V>)
    requires IsLLRB(l) && IsLLRB(rt) && BlackHeight(l) == BlackHeight(rt)
    requires c == Red ==> !IsRed(l) && !IsRed(rt)
    ensures var n := Node(c, l, k, v, rt);
      var t := Balance(n);
      && IsLLRB(t) && BlackHeight(t) == BlackHeight(n)
      && (IsRed(t) ==> c == Red || (IsRed(l) && IsRed(rt)))
  {
    var n := Node(c, l, k, v, rt);
    if IsRed(rt) && !IsRed(l) {
      assert Balance(n) == Node(c, Node(Red, l, k, v, rt.left), rt.key, rt.val, rt.right);
    } else if IsRed(rt) {
      assert Balance(n) == FlipColors(n);
      assert BlackHeight(l.(color := Black)) == BlackHeight(l) + 1;
    } else {
      assert Balance(n) == n;
    }
  }

  // ----- deleteMin -----

  /** The borrowing step of the left descent: a black left child whose own
      left child is black is a 2-node, and takes a red link from the right. */
  function PushRedLeft<V>(h: Tree<V>): (g: Tree<V>)
    requires h.Node? && h.left.Node?
    requires !IsRed(h.left) && !IsRed(h.left.left) ==>
               h.right.Node? && (IsRed(h.right.left) ==> h.right.color == Black)
    ensures g.Node? && Entries(g) == Entries(h)
  {
    if !IsRed(h.left) && !IsRed(h.left.left) then MoveRedLeft(h) else h
  }

  /** On a subtree deleteMin may enter, the left descent's borrowing step
      is defined, and it leaves a left child deleteMin may enter. */
  lemma PushRedLeftReady<V>(h: Tree<V>)
    requires MinReady(h) && h.left.Node?
    ensures !IsRed(h.left) && !IsRed(h.left.left) ==>
              h.right.Node? && (IsRed(h.right.left) ==> h.right.color == Black)
    ensures MinReady(PushRedLeft(h).left)
  {
    LLRBNode(h);
    LLRBNode(h.left);
    if !IsRed(h.left) && !IsRed(h.left.left) {
      MoveRedLeftCases(h);
      var l := h.left;
      var r := h.right;
      LLRBNode(r);
      assert IsLLRB(l.(color := Red));
      if IsRed(r.left) {
        LLRBNode(r.left);
        var x := Node(Black, l.(color := Red), h.key, h.val, r.left.left);
        assert PushRedLeft(h).left == x;
        assert BlackHeight(r.left.left) == BlackHeight(r.left) == BlackHeight(l) - 1;
        assert IsLLRB(x);
      } else {
        assert PushRedLeft(h).left == l.(color := Red);
      }
    } else {
      assert PushRedLeft(h) == h;
    }
  }

  /** Rebalancing after the left descent restores the invariants, given
      that the descent did. */
  lemma PushRedLeftRebalance<V>(h: Tree<V>, d: Tree<V>)
    requires MinReady(h) && h.left.Node?
    requires !IsRed(h.left) && !IsRed(h.left.left) ==>
               h.right.Node? && (IsRed(h.right.left) ==> h.right.color == Black)
    requires Shrunk(d, PushRedLeft(h).left)
    ensures Shrunk(Balance(PushRedLeft(h).(left := d)), h)
  {
    var g := PushRedLeft(h);
    LLRBNode(h);
    LLRBNode(h.left);
    if !IsRed(h.left) && !IsRed(h.left.left) {
      MoveRedLeftCases(h);
      var l := h.left;
      var r := h.right;
      LLRBNode(r);
      if IsRed(r.left) {
        LLRBNode(r.left);
        var y := Node(Black, r.left.right, r.key, r.val, r.right);
        assert g.(left := d) == Node(Red, d, r.left.key, r.left.val, y);
        assert BlackHeight(r.left.right) == BlackHeight(r.right);
        assert IsLLRB(y);
        assert !IsRed(d);
        assert g.left == Node(Black, l.(color := Red), h.key, h.val, r.left.left);
        assert BlackHeight(g.left) == BlackHeight(l.left) + 1 == BlackHeight(l);
        assert BlackHeight(y) == BlackHeight(r.left.right) + 1 == BlackHeight(r);
        BalanceLLRB(Red, d, r.left.key, r.left.val, y);
      } else {
        assert g.(left := d) == Node(Black, d, h.key, h.val, r.(color := Red));
        BalanceLLRB(Black, d, h.key, h.val, r.(color := Red));
      }
    } else {
      assert g.(left := d) == Node(h.color, d, h.key, h.val, h.right);
      BalanceLLRB(h.color, d, h.key, h.val, h.right);
    }
  }

  /** deleteMin(h): the leftmost node is unlinked (its right side is empty
      in a valid tree) and its value handed back, the code's `lastMin`;
      on the way up every node is rebalanced. */
  function DeleteMin<V>(h: Tree<V>): (r: (Tree<V>, V))
    requires MinReady(h)
    decreases Size(h)
  {
    if h.left.Leaf? then (Leaf, h.val)
    else
      PushRedLeftReady(h);
      var g := PushRedLeft(h);
      var (d, m) := DeleteMin(g.left);
      (Balance(g.(left := d)), m)
  }

  /** deleteMin keeps the subtree valid, of the same black height, and no
      redder than it was. */
  lemma {:induction false} DeleteMinShrinks<V>(h: Tree<V>)
    requires MinReady(h)
    ensures Shrunk(DeleteMin(h).0, h)
    decreases Size(h)
  {
    if h.left.Leaf? {
      LLRBNode(h);
    } else {
      PushRedLeftReady(h);
      var g := PushRedLeft(h);
      DeleteMinShrinks(g.left);
      var d := DeleteMin(g.left).0;
      assert DeleteMin(h).0 == Balance(g.(left := d));
      PushRedLeftRebalance(h, d);
    }
  }

  /** deleteMin removes exactly the first entry in key order and returns
      its value. */
  lemma {:induction false} DeleteMinEntries<V>(h: Tree<V>)
    requires MinReady(h)
    ensures Entries(DeleteMin(h).0) == Entries(h)[1..]
    ensures DeleteMin(h).1 == Entries(h)[0].val
    decreases Size(h)
  {
    if h.left.Leaf? {
      LLRBNode(h);
      LoneNode(h);
    } else {
      PushRedLeftReady(h);
      var g := PushRedLeft(h);
      var d := DeleteMin(g.left).0;
      assert Entries(d) == Entries(g.left)[1..] && DeleteMin(g.left).1 == Entries(g.left)[0].val by {
        DeleteMinEntries(g.left);
      }
      assert DeleteMin(h) == (Balance(g.(left := d)), DeleteMin(g.left).1);
      LeftStepEntries(g, d);
    }
  }

  /** The entries of a node whose left subtree lost its first entry. */
  lemma LeftStepEntries<V>(g: Tree<V>, d: Tree<V>)
    requires g.Node? && |Entries(g.left)| > 0
    requires Entries(d) == Entries(g.left)[1..]
    ensures |Entries(g)| > 0 && Entries(g)[0] == Entries(g.left)[0]
    ensures Entries(g.(left := d)) == Entries(g)[1..]
  {
    var tail := [Entry(g.key, g.val)] + Entries(g.right);
    assert Entries(g) == Entries(g.left) + tail;
    assert Entries(g.(left := d)) == Entries(d) + tail;
    DropFirst(Entries(g.left), tail);
  }

  // ----- deleteMax -----

  /** The first step of the right descent: a red left link is rotated
      over to the right. */
  function LeanRight<V>(h: Tree<V>): (g: Tree<V>)
    requires h.Node?
    ensures g.Node? && Entries(g) == Entries(h)
  {
    if IsRed(h.left) then RotateRight(h) else h
  }

  /** The borrowing step of the right descent: a black right child whose
      own left child is black is a 2-node, and takes a red link from the
      left.  The requirement is the code's assertions in moveRedRight. */
  function PushRedRight<V>(h: Tree<V>): (g: Tree<V>)
    requires h.Node? && h.right.Node?
    requires !IsRed(h.right) && !IsRed(h.right.left) ==>
               h.color == Red && h.left.Node? && h.left.color == Black && h.right.color == Black
    ensures g.Node? && Entries(g) == Entries(h)
  {
    if !IsRed(h.right) && !IsRed(h.right.left) then MoveRedRight(h) else h
  }

  /** The requirement of PushRedRight, that is the assertions of
      moveRedRight, as a predicate on the node the descent reaches. */
  ghost predicate CanPushRight<V>(g: Tree<V>) {
    && g.Node? && g.right.Node?
    && (!IsRed(g.right) && !IsRed(g.right.left) ==>
          g.color == Red && g.left.Node? && g.left.color == Black && g.right.color == Black)
  }

  /** A valid node that leans left or right has valid, equally high
      children, and only a missing child has a missing sibling. */
  lemma ReadyNode<V>(h: Tree<V>)
    requires MaxReady(h)
    ensures IsLLRB(h.left) && IsLLRB(h.right) && BlackHeight(h.left) == BlackHeight(h.right)
    ensures IsRed(h.left) ==> MinReady(h) && h.color == Black
    ensures RightLeaning(h) ==> MinReady(h.right)
    ensures h.right.Leaf? && !IsRed(h.left) ==> h.left.Leaf? && h.color == Red
    ensures h.left.Node? && !IsRed(h.left) ==> h.right.Node?
  {
    if MinReady(h) {
      LLRBNode(h);
    } else {
      assert !IsRed(h.left) && h.left.Node? ==> BlackHeight(h.left) > 0;
    }
  }

  /** On a subtree deleteMax may enter, with a right child after the
      first step, the borrowing step is defined (the assertions of
      moveRedRight hold) and leaves a right child deleteMax may enter. */
  lemma PushRedRightReady<V>(h: Tree<V>)
    requires MaxReady(h) && LeanRight(h).right.Node?
    ensures CanPushRight(LeanRight(h))
    ensures MaxReady(PushRedRight(LeanRight(h)).right)
  {
    ReadyNode(h);
    var l := h.left;
    var r := h.right;
    if IsRed(l) {
      LLRBNode(l);
      var g := Node(h.color, l.left, l.key, l.val, Node(Red, l.right, h.key, h.val, r));
      assert LeanRight(h) == g;
      assert PushRedRight(g) == g;
      assert MinReady(g.right);
    } else {
      assert LeanRight(h) == h;
      if !IsRed(r) && !IsRed(r.left) {
        assert MinReady(h) && h.color == Red;
        assert l.Node? && l.color == Black by {
          assert BlackHeight(r) > 0;
        }
        LLRBNode(l);
        LLRBNode(r);
        MoveRedRightCases(h);
        if IsRed(l.left) {
          var x := Node(Black, l.right, h.key, h.val, r.(color := Red));
          assert PushRedRight(h).right == x;
          assert BlackHeight(l.right) == BlackHeight(r.(color := Red));
          assert IsLLRB(r.(color := Red)) && IsLLRB(l.right) && !IsRed(l.right);
          assert RightLeaning(x);
        } else {
          assert PushRedRight(h).right == r.(color := Red);
          assert IsLLRB(r.(color := Red));
        }
      } else {
        assert PushRedRight(h) == h;
        if IsRed(r) {
          assert RightLeaning(h);
        } else {
          LLRBNode(h);
        }
      }
    }
  }

  /** Rebalancing after the right descent restores the invariants, given
      that the descent did; the node's own entry may have been replaced
      meanwhile. */
  lemma PushRedRightRebalance<V>(h: Tree<V>, k: int, v: V, d: Tree<V>)
    requires MaxReady(h) && LeanRight(h).right.Node?
    requires CanPushRight(LeanRight(h))
    requires Shrunk(d, PushRedRight(LeanRight(h)).right)
    ensures Shrunk(Balance(PushRedRight(LeanRight(h)).(key := k, val := v, right := d)), h)
  {
    ReadyNode(h);
    var l := h.left;
    var r := h.right;
    if IsRed(l) {
      LLRBNode(l);
      var g := Node(h.color, l.left, l.key, l.val, Node(Red, l.right, h.key, h.val, r));
      assert LeanRight(h) == g;
      assert PushRedRight(g) == g;
      assert g.(key := k, val := v, right := d) == Node(Black, l.left, k, v, d);
      BalanceLLRB(Black, l.left, k, v, d);
    } else {
      assert LeanRight(h) == h;
      if !IsRed(r) && !IsRed(r.left) {
        assert BlackHeight(r) > 0;
        LLRBNode(l);
        LLRBNode(r);
        MoveRedRightCases(h);
        if IsRed(l.left) {
          LLRBNode(l.left);
          var x := Node(Black, l.right, h.key, h.val, r.(color := Red));
          assert PushRedRight(h).(key := k, val := v, right := d) == Node(Red, l.left.(color := Black), k, v, d);
          assert BlackHeight(d) == BlackHeight(x) == BlackHeight(l);
          assert BlackHeight(l.left.(color := Black)) == BlackHeight(l);
          assert IsLLRB(l.left.(color := Black));
          BalanceLLRB(Red, l.left.(color := Black), k, v, d);
        } else {
          assert PushRedRight(h).(key := k, val := v, right := d) == Node(Black, l.(color := Red), k, v, d);
          assert IsLLRB(l.(color := Red));
          BalanceLLRB(Black, l.(color := Red), k, v, d);
        }
      } else {
        assert PushRedRight(h) == h;
        assert h.(key := k, val := v, right := d) == Node(h.color, l, k, v, d);
        BalanceLLRB(h.color, l, k, v, d);
      }
    }
  }

  /** deleteMax(h): the rightmost node is unlinked (its left side is empty
      once red left links have been turned right) and its value handed
      back, the code's `lastMax`; on the way up every node is rebalanced. */
  function DeleteMax<V>(h: Tree<V>): (r: (Tree<V>, V))
    requires MaxReady(h)
    decreases Size(h)
  {
    var g := LeanRight(h);
    if g.right.Leaf? then (Leaf, g.val)
    else
      PushRedRightReady(h);
      var f := PushRedRight(g);
      var (d, m) := DeleteMax(f.right);
      (Balance(f.(right := d)), m)
  }

  /** deleteMax keeps the subtree valid, of the same black height, and no
      redder than it was. */
  lemma {:induction false} DeleteMaxShrinks<V>(h: Tree<V>)
    requires MaxReady(h)
    ensures Shrunk(DeleteMax(h).0, h)
    decreases Size(h)
  {
    var g := LeanRight(h);
    if g.right.Leaf? {
      ReadyNode(h);
      assert g == h;
    } else {
      PushRedRightReady(h);
      var f := PushRedRight(g);
      DeleteMaxShrinks(f.right);
      var d := DeleteMax(f.right).0;
      // The node keeps its own entry: PushRedRightRebalance is stated for
      // a replaced entry, so the unchanged key and value are passed to it.
      assert DeleteMax(h).0 == Balance(f.(key := f.key, val := f.val, right := d));
      PushRedRightRebalance(h, f.key, f.val, d);
    }
  }

  /** `r` is `t` without its last entry in key order, together with
      that entry's value. */
  ghost predicate TakesLast<V>(t: Tree<V>, r: (Tree<V>, V)) {
    && |Entries(t)| > 0
    && Entries(r.0) == Entries(t)[..|Entries(t)| - 1]
    && r.1 == Entries(t)[|Entries(t)| - 1].val
  }

  /** deleteMax removes exactly the last entry in key order and returns
      its value. */
  lemma {:induction false} DeleteMaxEntries<V>(h: Tree<V>)
    requires MaxReady(h)
    ensures TakesLast(h, DeleteMax(h))
    decreases Size(h)
  {
    if LeanRight(h).right.Leaf? {
      ReadyNode(h);
      assert LeanRight(h) == h;
      LoneNode(h);
    } else {
      PushRedRightReady(h);
      DeleteMaxEntries(PushRedRight(LeanRight(h)).right);
      DeleteMaxStep(h);
    }
  }

  /** One level of deleteMax: if the descent took the last entry of the
      right subtree, the node lost its own last entry. */
  lemma DeleteMaxStep<V>(h: Tree<V>)
    requires MaxReady(h) && LeanRight(h).right.Node? && CanPushRight(LeanRight(h))
    requires MaxReady(PushRedRight(LeanRight(h)).right)
    requires var r := PushRedRight(LeanRight(h)).right; TakesLast(r, DeleteMax(r))
    ensures TakesLast(h, DeleteMax(h))
  {
    var f := PushRedRight(LeanRight(h));
    var r := DeleteMax(f.right);
    assert DeleteMax(h) == (Balance(f.(right := r.0)), r.1);
    assert Entries(f) == Entries(h);
    RightStepEntries(f, r.0);
    calc {
      Entries(DeleteMax(h).0);
      Entries(Balance(f.(right := r.0)));
      Entries(f.(right := r.0));
      Entries(f)[..|Entries(f)| - 1];
    }
  }

  /** The entries of a node whose right subtree lost its last entry. */
  lemma RightStepEntries<V>(f: Tree<V>, d: Tree<V>)
    requires f.Node? && |Entries(f.right)| > 0
    requires Entries(d) == Entries(f.right)[..|Entries(f.right)| - 1]
    ensures |Entries(f)| > 0
    ensures Entries(f)[|Entries(f)| - 1] == Entries(f.right)[|Entries(f.right)| - 1]
    ensures Entries(f.(right := d)) == Entries(f)[..|Entries(f)| - 1]
  {
    var front := Entries(f.left) + [Entry(f.key, f.val)];
    assert Entries(f) == front + Entries(f.right);
    assert Entries(f.(right := d)) == front + Entries(d);
    DropLast(front, Entries(f.right));
  }

  // ----- deleteNode -----

  /** Entering the left subtree looking for `key`: the left child exists,
      the borrowing step is defined, and the search may continue in the
      left child it leaves. */
  lemma DeleteLeftReady<V>(h: Tree<V>, key: int)
    requires DeleteReady(h, key) && Ordered(h) && key in Keys(Entries(h)) && key < h.key
    ensures h.left.Node?
    ensures !IsRed(h.left) && !IsRed(h.left.left) ==>
              h.right.Node? && (IsRed(h.right.left) ==> h.right.color == Black)
    ensures var g := PushRedLeft(h);
      DeleteReady(g.left, key) && Ordered(g.left) && key in Keys(Entries(g.left))
  {
    KeyInLeft(h, key);
    PushRedLeftReady(h);
    var g := PushRedLeft(h);
    OrderedNode(g);
    var l := h.left;
    if !IsRed(l) && !IsRed(l.left) {
      MoveRedLeftCases(h);
      var r := h.right;
      assert Entries(l.(color := Red)) == Entries(l);
      if IsRed(r.left) {
        var x := Node(Black, l.(color := Red), h.key, h.val, r.left.left);
        assert g.left == x;
        KeysAppend(Entries(l) + [Entry(h.key, h.val)], Entries(r.left.left));
        KeysAppend(Entries(l), [Entry(h.key, h.val)]);
      } else {
        assert g.left == l.(color := Red);
      }
    } else {
      assert g == h;
    }
  }

  /** Entering the right side looking for `key` (when the node itself is
      not the childless match): the right child exists, the assertions of
      moveRedRight hold, the node reached is not above `key`, and the
      descent may continue as the code does, into deleteMin when the node
      matches and into deleteNode otherwise. */
  lemma DeleteRightReady<V>(h: Tree<V>, key: int)
    requires DeleteReady(h, key) && Ordered(h) && key in Keys(Entries(h)) && h.key <= key
    requires !(key == LeanRight(h).key && LeanRight(h).right.Leaf?)
    ensures LeanRight(h).right.Node? && CanPushRight(LeanRight(h))
    ensures PushRedRight(LeanRight(h)).key <= key
    ensures var f := PushRedRight(LeanRight(h)); key == f.key ==> MinReady(f.right)
    ensures var f := PushRedRight(LeanRight(h)); key != f.key ==> DeleteReady(f.right, key)
    ensures var f := PushRedRight(LeanRight(h));
      key != f.key ==> Ordered(f.right) && key in Keys(Entries(f.right))
  {
    ReadyNode(h);
    var l := h.left;
    var r := h.right;
    var g := LeanRight(h);
    if IsRed(l) {
      LLRBNode(l);
      assert g == Node(h.color, l.left, l.key, l.val, Node(Red, l.right, h.key, h.val, r));
    } else {
      assert g == h;
      if key != h.key {
        KeyInRight(h, key);
      }
    }
    PushRedRightReady(h);
    var f := PushRedRight(g);
    OrderedNode(h);
    if l.Node? {
      assert Entry(l.key, l.val) in Entries(l);
      assert l.key < h.key;
    }
    if IsRed(l) {
      assert f == g;
      assert MinReady(f.right);
    } else if !IsRed(r) && !IsRed(r.left) {
      MoveRedRightCases(h);
      LLRBNode(h);
      LLRBNode(r);
      if IsRed(l.left) {
        assert f.right.key == h.key;
        assert f.key == l.key;
      } else {
        assert f.right == r.(color := Red);
        assert IsLLRB(r.(color := Red));
      }
    } else {
      assert f == h;
      if !IsRed(r) {
        LLRBNode(h);
      }
    }
    if key != f.key {
      OrderedNode(f);
      KeyInRight(f, key);
    }
  }

  /** deleteNode(h, key) for a key the subtree holds: descend left or
      right keeping a red link ahead, unlink a matching node without a
      right child, or overwrite a matching node with the least entry of
      its right subtree and delete that one with deleteMin. */
  function DeleteNode<V>(h: Tree<V>, key: int): (r: Tree<V>)
    requires DeleteReady(h, key) && Ordered(h) && key in Keys(Entries(h))
    decreases Size(h)
  {
    if key < h.key then
      DeleteLeftReady(h, key);
      var g := PushRedLeft(h);
      Balance(g.(left := DeleteNode(g.left, key)))
    else
      var g := LeanRight(h);
      if key == g.key && g.right.Leaf? then Leaf
      else
        DeleteRightReady(h, key);
        var f := PushRedRight(g);
        if key == f.key then
          var m := Min(f.right).value;
          Balance(f.(key := m.key, val := m.val, right := DeleteMin(f.right).0))
        else
          Balance(f.(right := DeleteNode(f.right, key)))
  }

  /** deleteNode keeps the subtree valid, of the same black height, and
      no redder than it was. */
  lemma {:induction false} DeleteNodeShrinks<V>(h: Tree<V>, key: int)
    requires DeleteReady(h, key) && Ordered(h) && key in Keys(Entries(h))
    ensures Shrunk(DeleteNode(h, key), h)
    decreases Size(h)
  {
    if key < h.key {
      DeleteLeftReady(h, key);
      var g := PushRedLeft(h);
      DeleteNodeShrinks(g.left, key);
      var d := DeleteNode(g.left, key);
      assert DeleteNode(h, key) == Balance(g.(left := d));
      PushRedLeftReady(h);
      PushRedLeftRebalance(h, d);
    } else {
      var g := LeanRight(h);
      if key == g.key && g.right.Leaf? {
        ReadyNode(h);
        assert g == h;
      } else {
        DeleteRightReady(h, key);
        var f := PushRedRight(g);
        if key == f.key {
          var m := Min(f.right).value;
          var d := DeleteMin(f.right).0;
          DeleteMinShrinks(f.right);
          assert DeleteNode(h, key) == Balance(f.(key := m.key, val := m.val, right := d));
          PushRedRightRebalance(h, m.key, m.val, d);
        } else {
          DeleteNodeShrinks(f.right, key);
          var d := DeleteNode(f.right, key);
          // The node keeps its own entry: PushRedRightRebalance is stated for
          // a replaced entry, so the unchanged key and value are passed to it.
          assert DeleteNode(h, key) == Balance(f.(key := f.key, val := f.val, right := d));
          PushRedRightRebalance(h, f.key, f.val, d);
        }
      }
    }
  }

  /** deleteNode removes exactly the entry under `key` and nothing else. */
  lemma {:induction false} DeleteNodeEntries<V>(h: Tree<V>, key: int)
    requires DeleteReady(h, key) && Ordered(h) && key in Keys(Entries(h))
    ensures Entries(DeleteNode(h, key)) == Remove(Entries(h), key)
    decreases Size(h)
  {
    if key < h.key {
      DeleteLeftReady(h, key);
      DeleteNodeEntries(PushRedLeft(h).left, key);
      DeleteLeftStep(h, key);
    } else if key == LeanRight(h).key && LeanRight(h).right.Leaf? {
      ReadyNode(h);
      assert LeanRight(h) == h;
      LoneNode(h);
    } else {
      DeleteRightReady(h, key);
      var f := PushRedRight(LeanRight(h));
      if key == f.key {
        DeleteHereStep(h, key);
      } else {
        DeleteNodeEntries(f.right, key);
        DeleteRightStep(h, key);
      }
    }
  }

  /** One level of deleteNode going left: removing `key` below removes
      it from the node. */
  lemma DeleteLeftStep<V>(h: Tree<V>, key: int)
    requires DeleteReady(h, key) && Ordered(h) && key in Keys(Entries(h)) && key < h.key
    requires h.left.Node?
    requires !IsRed(h.left) && !IsRed(h.left.left) ==>
               h.right.Node? && (IsRed(h.right.left) ==> h.right.color == Black)
    requires var g := PushRedLeft(h);
      DeleteReady(g.left, key) && Ordered(g.left) && key in Keys(Entries(g.left))
    requires var g := PushRedLeft(h);
      Entries(DeleteNode(g.left, key)) == Remove(Entries(g.left), key)
    ensures Entries(DeleteNode(h, key)) == Remove(Entries(h), key)
  {
    var g := PushRedLeft(h);
    var d := DeleteNode(g.left, key);
    assert DeleteNode(h, key) == Balance(g.(left := d));
    LeftRemoveEntries(h, g, d, key);
  }

  /** One level of deleteNode going right: removing `key` below removes
      it from the node. */
  lemma DeleteRightStep<V>(h: Tree<V>, key: int)
    requires DeleteReady(h, key) && Ordered(h) && key in Keys(Entries(h)) && h.key <= key
    requires !(key == LeanRight(h).key && LeanRight(h).right.Leaf?)
    requires LeanRight(h).right.Node? && CanPushRight(LeanRight(h))
    requires var f := PushRedRight(LeanRight(h));
      key != f.key && DeleteReady(f.right, key) && Ordered(f.right) && key in Keys(Entries(f.right))
    requires var f := PushRedRight(LeanRight(h));
      Entries(DeleteNode(f.right, key)) == Remove(Entries(f.right), key)
    ensures Entries(DeleteNode(h, key)) == Remove(Entries(h), key)
  {
    var f := PushRedRight(LeanRight(h));
    var d := DeleteNode(f.right, key);
    assert DeleteNode(h, key) == Balance(f.(right := d));
    RightRemoveEntries(h, f, d, key);
  }

  /** The level of deleteNode that finds `key`: the node takes over the
      least entry of its right subtree, which deleteMin then removes. */
  lemma DeleteHereStep<V>(h: Tree<V>, key: int)
    requires DeleteReady(h, key) && Ordered(h) && key in Keys(Entries(h)) && h.key <= key
    requires !(key == LeanRight(h).key && LeanRight(h).right.Leaf?)
    requires LeanRight(h).right.Node? && CanPushRight(LeanRight(h))
    requires var f := PushRedRight(LeanRight(h)); key == f.key && MinReady(f.right)
    ensures Entries(DeleteNode(h, key)) == Remove(Entries(h), key)
  {
    var f := PushRedRight(LeanRight(h));
    var m := Min(f.right).value;
    var d := DeleteMin(f.right).0;
    assert Entries(d) == Entries(f.right)[1..] by {
      DeleteMinEntries(f.right);
    }
    assert f.key !in Keys(Entries(f.left)) && f.key !in Keys(Entries(f.right)) by {
      assert Ordered(f);
      OrderedNode(f);
    }
    assert DeleteNode(h, key) == Balance(f.(key := m.key, val := m.val, right := d));
    HereRemoveEntries(f, d, m);
  }


  /** The entries of a node after `key` was removed from its left subtree. */
  lemma LeftRemoveEntries<V>(h: Tree<V>, g: Tree<V>, d: Tree<V>, key: int)
    requires g.Node? && Entries(g) == Entries(h) && Ordered(g)
    requires key in Keys(Entries(g.left)) && Entries(d) == Remove(Entries(g.left), key)
    ensures Entries(Balance(g.(left := d))) == Remove(Entries(h), key)
  {
    var x := [Entry(g.key, g.val)];
    assert key !in Keys(x) && key !in Keys(Entries(g.right)) by {
      OrderedNode(g);
    }
    RemoveAbsent(x, key);
    RemoveAbsent(Entries(g.right), key);
    RemoveAppend(Entries(g.left) + x, Entries(g.right), key);
    RemoveAppend(Entries(g.left), x, key);
  }

  /** The entries of a node after `key` was removed from its right subtree. */
  lemma RightRemoveEntries<V>(h: Tree<V>, f: Tree<V>, d: Tree<V>, key: int)
    requires f.Node? && Entries(f) == Entries(h) && Ordered(f)
    requires key in Keys(Entries(f.right)) && Entries(d) == Remove(Entries(f.right), key)
    ensures Entries(Balance(f.(right := d))) == Remove(Entries(h), key)
  {
    var front := Entries(f.left) + [Entry(f.key, f.val)];
    assert key !in Keys(front) by {
      OrderedNode(f);
      KeysAppend(Entries(f.left), [Entry(f.key, f.val)]);
    }
    RemoveAbsent(front, key);
    RemoveAppend(front, Entries(f.right), key);
    assert Entries(f.(right := d)) == front + Entries(d);
  }

  /** The entries of a node whose own entry was overwritten by the least
      entry `m` of its right subtree, which was then deleted there. */
  lemma HereRemoveEntries<V>(f: Tree<V>, d: Tree<V>, m: Entry<V>)
    requires f.Node? && f.key !in Keys(Entries(f.left)) && f.key !in Keys(Entries(f.right))
    requires |Entries(f.right)| > 0 && m == Entries(f.right)[0]
    requires Entries(d) == Entries(f.right)[1..]
    ensures Entries(f.(key := m.key, val := m.val, right := d)) == Remove(Entries(f), f.key)
  {
    RemoveFirstOfRight(Entries(f.left), Entry(f.key, f.val), Entries(f.right), Entries(d));
  }
}
