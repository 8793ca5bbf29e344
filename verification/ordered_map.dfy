/** The map as its users see it: the root of the tree together with the
    cached node count `rbtreeSize`.  Every public operation works on the
    root and then paints it black; the deletions first paint it red when
    neither child is red, so that the descent starts from a red link. */
module OrderedMap {
  import opened Options
  import opened AssocList
  import opened RedBlack
  import Search
  import Insertion
  import Deletion
  import Checks

  datatype RBTree<V> = RBTree(root: Tree<V>, count: int)

  /** The class invariant: a binary search tree satisfying the
      left-leaning red-black invariants under a black root, whose cached
      count is its number of nodes. */
  ghost predicate Valid<V>(m: RBTree<V>) {
    IsLLRB(m.root) && !IsRed(m.root) && Ordered(m.root) && m.count == Size(m.root)
  }

  /** The key/value pairs the map holds, in key order. */
  ghost function Contents<V>(m: RBTree<V>): seq<Entry<V>> {
    Entries(m.root)
  }

  /** The constructor: no root, count zero. */
  function Empty<V>(): (m: RBTree<V>)
    ensures Valid(m) && Contents(m) == []
  {
    RBTree(Leaf, 0)
  }

  /** clear(): every node is released and the count reset. */
  function Clear<V>(m: RBTree<V>): (r: RBTree<V>)
    ensures Valid(r) && Contents(r) == []
  {
    RBTree(Leaf, 0)
  }

  /** size(): the nodes counted by traversal. */
  function SizeOf<V>(m: RBTree<V>): (n: int)
    ensures n == |Contents(m)|
  {
    Size(m.root)
  }

  /** isEmpty(): the code asserts the traversal count agrees with the
      cached count, then tests the cached count. */
  function IsEmpty<V>(m: RBTree<V>): (b: bool)
    requires Size(m.root) == m.count
    ensures b <==> Contents(m) == []
  {
    m.count == 0
  }

  /** height(): nodes on the longest path from the root. */
  function HeightOf<V>(m: RBTree<V>): nat {
    Height(m.root)
  }

  /** get(key), None where the code would dereference a null pointer. */
  function Get<V>(m: RBTree<V>, key: int): (r: Option<V>)
    ensures Valid(m) ==> r == Lookup(Contents(m), key)
  {
    Search.Get(m.root, key)
  }

  /** contains(key). */
  function Contains<V>(m: RBTree<V>, key: int): (b: bool)
    ensures Valid(m) ==> (b <==> key in Keys(Contents(m)))
  {
    Search.Contains(m.root, key)
  }

  /** min(): the value at the least key, None where the code returns the
      default-constructed sentinel. */
  function Min<V>(m: RBTree<V>): (r: Option<V>)
    ensures r.None? <==> Contents(m) == []
    ensures r.Some? ==> r.value == Contents(m)[0].val
  {
    match Search.Min(m.root)
    case None => None
    case Some(e) => Some(e.val)
  }

  /** max(): the value at the greatest key, or None. */
  function Max<V>(m: RBTree<V>): (r: Option<V>)
    ensures r.None? <==> Contents(m) == []
    ensures r.Some? ==> r.value == Contents(m)[|Contents(m)| - 1].val
  {
    match Search.Max(m.root)
    case None => None
    case Some(e) => Some(e.val)
  }

  /** successor(key): the value at the least key above `key`, or None. */
  function Successor<V>(m: RBTree<V>, key: int): (r: Option<V>)
    ensures Valid(m) ==> r.None? == Next(Contents(m), key).None?
    ensures Valid(m) && r.Some? ==> r.value == Next(Contents(m), key).value.val
  {
    match Search.Successor(m.root, key)
    case None => None
    case Some(e) => Some(e.val)
  }

  /** precursor(key): the value at the greatest key below `key`, or None. */
  function Precursor<V>(m: RBTree<V>, key: int): (r: Option<V>)
    ensures Valid(m) ==> r.None? == Prev(Contents(m), key).None?
    ensures Valid(m) && r.Some? ==> r.value == Prev(Contents(m), key).value.val
  {
    match Search.Precursor(m.root, key)
    case None => None
    case Some(e) => Some(e.val)
  }

  /** isBalanced(). */
  method IsBalanced<V>(m: RBTree<V>) returns (b: bool)
    ensures b <==> Balanced(m.root)
  {
    b := Checks.IsBalanced(m.root);
  }

  /** is23Tree(). */
  function Is23Tree<V>(m: RBTree<V>): (b: bool)
    ensures !IsRed(m.root) ==> (b <==> LeftLeaning(m.root))
  {
    Checks.Is23TreeSpec(m.root);
    Checks.Is23Tree(m.root)
  }

  // ----- the root recolourings -----

  /** The final step of every update: a non-empty root is painted black. */
  function Blacken<V>(t: Tree<V>): (r: Tree<V>)
    ensures Entries(r) == Entries(t)
    ensures IsLLRB(t) ==> IsLLRB(r) && !IsRed(r)
  {
    if t.Node? then t.(color := Black) else t
  }

  /** The first step of every deletion: a root with no red child is
      painted red, so that the descent starts out on a red link. */
  function Redden<V>(t: Tree<V>): (r: Tree<V>)
    requires t.Node?
    ensures Entries(r) == Entries(t)
    ensures IsLLRB(t) && !IsRed(t) ==> Deletion.MinReady(r)
  {
    if !IsRed(t.left) && !IsRed(t.right) then t.(color := Red) else t
  }

  // ----- updates -----

  /** put(key, val): an empty map receives a black root and a count of
      one; otherwise the recursive put runs, the count grows when it
      created a node, and the root is painted black. */
  function Put<V>(m: RBTree<V>, key: int, val: V): RBTree<V> {
    if m.root.Leaf? then RBTree(Node(Black, Leaf, key, val, Leaf), m.count + 1)
    else
      var (t, added) := Insertion.Put(m.root, key, val);
      RBTree(Blacken(t), if added then m.count + 1 else m.count)
  }

  /** deleteMin(): on an empty map, nothing changes and the answer is
      None; otherwise the least entry is removed, the count drops by one
      and its value is returned. */
  function DeleteMin<V>(m: RBTree<V>): (RBTree<V>, Option<V>)
    requires Valid(m)
  {
    if IsEmpty(m) then (m, None)
    else
      var (t, v) := Deletion.DeleteMin(Redden(m.root));
      (RBTree(Blacken(t), m.count - 1), Some(v))
  }

  /** deleteMax(): the mirror image of DeleteMin. */
  function DeleteMax<V>(m: RBTree<V>): (RBTree<V>, Option<V>)
    requires Valid(m)
  {
    if IsEmpty(m) then (m, None)
    else
      var (t, v) := Deletion.DeleteMax(Redden(m.root));
      (RBTree(Blacken(t), m.count - 1), Some(v))
  }

  /** deleteNode(key): a key the map does not contain leaves it as it is;
      otherwise the entry is removed and the count drops by one. */
  function DeleteNode<V>(m: RBTree<V>, key: int): RBTree<V>
    requires Valid(m)
  {
    if !Contains(m, key) then m
    else
      var t := Deletion.DeleteNode(Redden(m.root), key);
      RBTree(Blacken(t), m.count - 1)
  }

  // ----- what the updates promise -----

  /** put keeps the class invariant (black root, LLRB shape, order, and a
      count equal to the node count), stores `val` under `key` and leaves
      every other entry alone; the count grows exactly when `key` is new. */
  lemma PutSpec<V>(m: RBTree<V>, key: int, val: V)
    requires Valid(m)
    ensures Valid(Put(m, key, val))
    ensures Contents(Put(m, key, val)) == Insert(Contents(m), key, val)
    ensures Put(m, key, val).count == if key in Keys(Contents(m)) then m.count else m.count + 1
  {
    InsertSorted(Contents(m), key, val);
    if m.root.Node? {
      Insertion.PutKeepsInvariants(m.root, key, val);
      Insertion.PutEntries(m.root, key, val);
      Insertion.PutAdded(m.root, key, val);
    }
  }

  /** After put, get finds `val` at `key` and the old answer elsewhere. */
  lemma GetAfterPut<V>(m: RBTree<V>, key: int, val: V, k: int)
    requires Valid(m)
    ensures Get(Put(m, key, val), k) == if k == key then Some(val) else Get(m, k)
  {
    PutSpec(m, key, val);
    LookupInsert(Contents(m), key, val, k);
  }

  /** deleteMin on an empty map changes nothing and answers None; on a
      non-empty one it removes the least entry, returns its value (the
      answer min() gave beforehand), keeps the invariant, and the count
      drops by one. */
  lemma DeleteMinSpec<V>(m: RBTree<V>)
    requires Valid(m)
    ensures var (r, v) := DeleteMin(m);
      && Valid(r) && v == Min(m)
      && (Contents(m) == [] ==> r == m)
      && (Contents(m) != [] ==> Contents(r) == Contents(m)[1..] && r.count == m.count - 1)
  {
    if m.root.Node? {
      var h := Redden(m.root);
      Deletion.DeleteMinShrinks(h);
      Deletion.DeleteMinEntries(h);
      SortedTail(Contents(m));
    }
  }

  /** deleteMax: the mirror image of DeleteMinSpec. */
  lemma DeleteMaxSpec<V>(m: RBTree<V>)
    requires Valid(m)
    ensures var (r, v) := DeleteMax(m);
      && Valid(r) && v == Max(m)
      && (Contents(m) == [] ==> r == m)
      && (Contents(m) != [] ==>
            Contents(r) == Contents(m)[..|Contents(m)| - 1] && r.count == m.count - 1)
  {
    if m.root.Node? {
      var h := Redden(m.root);
      Deletion.DeleteMaxShrinks(h);
      Deletion.DeleteMaxEntries(h);
      SortedFront(Contents(m));
    }
  }

  /** deleteNode keeps the invariant and removes exactly the entry under
      `key`; the count drops by one exactly when that entry existed, and
      a missing key leaves the map as it was. */
  lemma DeleteNodeSpec<V>(m: RBTree<V>, key: int)
    requires Valid(m)
    ensures Valid(DeleteNode(m, key))
    ensures Contents(DeleteNode(m, key)) == Remove(Contents(m), key)
    ensures DeleteNode(m, key).count == if key in Keys(Contents(m)) then m.count - 1 else m.count
    ensures key !in Keys(Contents(m)) ==> DeleteNode(m, key) == m
  {
    RemoveSorted(Contents(m), key);
    if key in Keys(Contents(m)) {
      var h := Redden(m.root);
      Deletion.DeleteNodeShrinks(h, key);
      Deletion.DeleteNodeEntries(h, key);
    } else {
      RemoveAbsent(Contents(m), key);
    }
  }

  /** After deleteNode, get finds nothing at `key` and the old answer
      elsewhere. */
  lemma GetAfterDelete<V>(m: RBTree<V>, key: int, k: int)
    requires Valid(m)
    ensures Get(DeleteNode(m, key), k) == if k == key then None else Get(m, k)
  {
    DeleteNodeSpec(m, key);
    LookupRemove(Contents(m), key, k);
  }

  /** A valid map passes both of its self-checks. */
  lemma ValidPassesChecks<V>(m: RBTree<V>)
    requires Valid(m)
    ensures Checks.Is23Tree(m.root)
    ensures Checks.IsBalancedFrom(m.root, BlackHeight(m.root))
  {
    Checks.Is23TreeSpec(m.root);
    Checks.IsBalancedFromSpec(m.root, BlackHeight(m.root));
  }
}
