/** The structural self-checks of the map, isBalanced and is23Tree, and
    what the invariants they test say about the tree's height. */
module Checks {
  import opened RedBlack

  /** isBalanced(h, black): every path from `h` down to a missing child
      passes exactly `black` black nodes. */
  function IsBalancedFrom<V>(h: Tree<V>, black: int): bool {
    match h
    case Leaf => black == 0
    case Node(c, l, _, _, r) =>
      var b := if c == Black then black - 1 else black;
      IsBalancedFrom(l, b) && IsBalancedFrom(r, b)
  }

  /** The recursive check accepts exactly the perfectly black-balanced
      subtrees whose black height is the number given. */
  lemma {:induction false} IsBalancedFromSpec<V>(h: Tree<V>, black: int)
    ensures IsBalancedFrom(h, black) <==> Balanced(h) && BlackHeight(h) == black
  {
    match h
    case Leaf =>
    case Node(c, l, _, _, r) =>
      var b := if c == Black then black - 1 else black;
      IsBalancedFromSpec(l, b);
      IsBalancedFromSpec(r, b);
  }

  /** isBalanced(): count the black nodes down the left spine, then check
      that every path has that many. */
  method IsBalanced<V>(t: Tree<V>) returns (b: bool)
    ensures b <==> Balanced(t)
  {
    var black := 0;
    var x := t;
    while x.Node?
      invariant black + BlackHeight(x) == BlackHeight(t)
      decreases x
    {
      if !IsRed(x) {
        black := black + 1;
      }
      x := x.left;
    }
    IsBalancedFromSpec(t, black);
    b := IsBalancedFrom(t, black);
  }

  /** is23Tree(h): no red right link anywhere, and no red node with a red
      left child except at the root, which the code exempts because the
      caller blackens it. */
  function Is23From<V>(h: Tree<V>, isRoot: bool): bool {
    match h
    case Leaf => true
    case Node(c, l, _, _, r) =>
      if IsRed(r) then false
      else if !isRoot && c == Red && IsRed(l) then false
      else Is23From(l, false) && Is23From(r, false)
  }

  /** is23Tree() starts at the root. */
  function Is23Tree<V>(t: Tree<V>): bool {
    Is23From(t, true)
  }

  /** Below the root, the check accepts exactly the 2-3 shape. */
  lemma {:induction false} Is23FromSpec<V>(h: Tree<V>)
    ensures Is23From(h, false) <==> LeftLeaning(h)
  {
    match h
    case Leaf =>
    case Node(_, l, _, _, r) =>
      Is23FromSpec(l);
      Is23FromSpec(r);
  }

  /** At the root the check accepts the 2-3 shape with the root's own
      red-red exemption; for a black root that is the 2-3 shape itself. */
  lemma Is23TreeSpec<V>(t: Tree<V>)
    ensures Is23Tree(t) <==>
              t.Leaf? || (!IsRed(t.right) && LeftLeaning(t.left) && LeftLeaning(t.right))
    ensures !IsRed(t) ==> (Is23Tree(t) <==> LeftLeaning(t))
  {
    if t.Node? {
      Is23FromSpec(t.left);
      Is23FromSpec(t.right);
    }
  }

  function Pow2(n: nat): nat {
    if n == 0 then 1 else 2 * Pow2(n - 1)
  }

  /** A perfectly black-balanced subtree holds at least 2^bh - 1 nodes. */
  lemma {:induction false} SizeAtLeast<V>(t: Tree<V>)
    requires Balanced(t)
    ensures Pow2(BlackHeight(t)) <= Size(t) + 1
  {
    match t
    case Leaf =>
    case Node(c, l, _, _, r) =>
      SizeAtLeast(l);
      SizeAtLeast(r);
  }

  /** In a valid subtree no path is longer than twice the black height,
      plus one for a red top. */
  lemma {:induction false} HeightAtMost<V>(t: Tree<V>)
    requires IsLLRB(t)
    ensures Height(t) <= 2 * BlackHeight(t) + (if IsRed(t) then 1 else 0)
  {
    match t
    case Leaf =>
    case Node(c, l, _, _, r) =>
      LLRBNode(t);
      HeightAtMost(l);
      HeightAtMost(r);
  }

  /** Hence a valid tree with a black root is logarithmically high:
      2^(height/2) <= size + 1. */
  lemma HeightLogarithmic<V>(t: Tree<V>)
    requires IsLLRB(t) && !IsRed(t)
    ensures Pow2(Height(t) / 2) <= Size(t) + 1
  {
    HeightAtMost(t);
    SizeAtLeast(t);
    Pow2Monotone(Height(t) / 2, BlackHeight(t));
  }

  lemma {:induction false} Pow2Monotone(a: nat, b: nat)
    requires a <= b
    ensures Pow2(a) <= Pow2(b)
  {
    if a < b {
      Pow2Monotone(a, b - 1);
    }
  }
}
