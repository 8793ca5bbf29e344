/** The read-only descents of the map: get, contains, min, max,
    successor and precursor.  Where the code hands back a null node or a
    default-constructed key, these return None. */
module Search {
  import opened Options
  import opened AssocList
  import opened RedBlack

  /** get(h, key): compare at each node and go right, left, or stop. */
  function Get<V>(h: Tree<V>, key: int): (r: Option<V>)
    ensures Ordered(h) ==> r == Lookup(Entries(h), key)
  {
    match h
    case Leaf => None
    case Node(_, l, k, v, rt) =>
      var a := Entries(l) + [Entry(k, v)];
      LookupAppend(a, Entries(rt), key);
      LookupAppend(Entries(l), [Entry(k, v)], key);
      LookupSpec(Entries(l), key);
      LookupSpec(Entries(rt), key);
      OrderedNode(h);
      if k < key then Get(rt, key)
      else if k > key then Get(l, key)
      else Some(v)
  }

  /** contains(key): get found a node. */
  function Contains<V>(h: Tree<V>, key: int): (b: bool)
    ensures Ordered(h) ==> (b <==> key in Keys(Entries(h)))
  {
    LookupSpec(Entries(h), key);
    Get(h, key).Some?
  }

  /** min(h): the leftmost node, None on an empty subtree. */
  function Min<V>(h: Tree<V>): (r: Option<Entry<V>>)
    ensures r.None? <==> h.Leaf?
    ensures r.Some? ==> r.value == Entries(h)[0]
    ensures r.Some? && Ordered(h) ==> forall e :: e in Entries(h) ==> r.value.key <= e.key
  {
    match h
    case Leaf => None
    case Node(_, l, k, v, _) =>
      if l.Leaf? then
        assert Entries(h) == [Entry(k, v)] + Entries(h.right);
        OrderedNode(h);
        Some(Entry(k, v))
      else
        assert Entries(h) == Entries(l) + ([Entry(k, v)] + Entries(h.right));
        OrderedNode(h);
        Min(l)
  }

  /** max(h): the rightmost node, None on an empty subtree. */
  function Max<V>(h: Tree<V>): (r: Option<Entry<V>>)
    ensures r.None? <==> h.Leaf?
    ensures r.Some? ==> r.value == Entries(h)[|Entries(h)| - 1]
    ensures r.Some? && Ordered(h) ==> forall e :: e in Entries(h) ==> e.key <= r.value.key
  {
    match h
    case Leaf => None
    case Node(_, _, k, v, rt) =>
      if rt.Leaf? then
        assert Entries(h) == Entries(h.left) + [Entry(k, v)];
        OrderedNode(h);
        Some(Entry(k, v))
      else
        assert Entries(h) == (Entries(h.left) + [Entry(k, v)]) + Entries(rt);
        OrderedNode(h);
        Max(rt)
  }

  /** successor(cur, key), comparing node keys: at a key not above `key`
      the answer lies to the right; otherwise it is in the left subtree
      or, failing that, the node itself. */
  function Successor<V>(h: Tree<V>, key: int): (r: Option<Entry<V>>)
    ensures Ordered(h) ==> r == Next(Entries(h), key)
  {
    match h
    case Leaf => None
    case Node(_, l, k, v, rt) =>
      NextAppend(Entries(l) + [Entry(k, v)], Entries(rt), key);
      NextAppend(Entries(l), [Entry(k, v)], key);
      NextSpec(Entries(l), key);
      OrderedNode(h);
      if k <= key then Successor(rt, key)
      else
        match Successor(l, key)
        case None => Some(Entry(k, v))
        case Some(e) => Some(e)
  }

  /** precursor(cur, key), comparing node keys: the mirror image of
      Successor. */
  function Precursor<V>(h: Tree<V>, key: int): (r: Option<Entry<V>>)
    ensures Ordered(h) ==> r == Prev(Entries(h), key)
  {
    match h
    case Leaf => None
    case Node(_, l, k, v, rt) =>
      PrevAppend(Entries(l), [Entry(k, v)] + Entries(rt), key);
      PrevAppend([Entry(k, v)], Entries(rt), key);
      PrevSpec(Entries(rt), key);
      assert Entries(h) == Entries(l) + ([Entry(k, v)] + Entries(rt));
      OrderedNode(h);
      if k >= key then Precursor(l, key)
      else
        match Precursor(rt, key)
        case None => Some(Entry(k, v))
        case Some(e) => Some(e)
  }

  // ----- successor and precursor as the code writes them -----

  /** successor(cur, key) exactly as written: it steers by the node's
      value instead of its key, which only makes sense when the two are
      comparable, as with integer values here. */
  function SuccessorAsWritten(h: Tree<int>, key: int): Option<Entry<int>> {
    match h
    case Leaf => None
    case Node(_, l, k, v, rt) =>
      if v <= key then SuccessorAsWritten(rt, key)
      else
        match SuccessorAsWritten(l, key)
        case None => Some(Entry(k, v))
        case Some(e) => Some(e)
  }

  /** precursor(cur, key) exactly as written, steering by value. */
  function PrecursorAsWritten(h: Tree<int>, key: int): Option<Entry<int>> {
    match h
    case Leaf => None
    case Node(_, l, k, v, rt) =>
      if v >= key then PrecursorAsWritten(l, key)
      else
        match PrecursorAsWritten(rt, key)
        case None => Some(Entry(k, v))
        case Some(e) => Some(e)
  }

  /** Every node stores its own key as its value. */
  ghost predicate KeysAsValues(h: Tree<int>) {
    match h
    case Leaf => true
    case Node(_, l, k, v, r) => k == v && KeysAsValues(l) && KeysAsValues(r)
  }

  /** When values equal keys, the written code and the key-steered
      descent agree. */
  lemma {:induction false} AsWrittenAgrees(h: Tree<int>, key: int)
    requires KeysAsValues(h)
    ensures SuccessorAsWritten(h, key) == Successor(h, key)
    ensures PrecursorAsWritten(h, key) == Precursor(h, key)
  {
    match h
    case Leaf =>
    case Node(_, l, _, _, r) =>
      AsWrittenAgrees(l, key);
      AsWrittenAgrees(r, key);
  }

  /** Otherwise they part ways: a single node with key 1 and value 5 has
      no key above 3, yet the written successor offers it; and it has a
      key below 3, yet the written precursor finds none. */
  lemma AsWrittenDiffers()
    ensures var t := Node(Black, Leaf, 1, 5, Leaf);
      && Next(Entries(t), 3) == None
      && SuccessorAsWritten(t, 3) == Some(Entry(1, 5))
      && Prev(Entries(t), 3) == Some(Entry(1, 5))
      && PrecursorAsWritten(t, 3) == None
  {
    var t := Node(Black, Leaf, 1, 5, Leaf);
    assert Entries(t) == [Entry(1, 5)];
    assert [Entry(1, 5)][1..] == [];
    assert [Entry(1, 5)][..0] == [];
  }
}
