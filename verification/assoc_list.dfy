/** Sorted association lists: the abstract contents of an ordered map,
    written out in increasing key order.  The tree operations are
    specified against these definitions, which know nothing about trees,
    colours or rotations. */
module AssocList {
  import opened Options

  /** One stored key/value pair. */
  datatype Entry<V> = Entry(key: int, val: V)

  /** Keys strictly increase along the list (so no key occurs twice). */
  ghost predicate Sorted<V>(s: seq<Entry<V>>) {
    forall i, j :: 0 <= i < j < |s| ==> s[i].key < s[j].key
  }

  ghost function Keys<V>(s: seq<Entry<V>>): set<int> {
    set e | e in s :: e.key
  }

  /** Every key of `s` is below `k`. */
  ghost predicate AllBelow<V>(s: seq<Entry<V>>, k: int) {
    forall e :: e in s ==> e.key < k
  }

  /** Every key of `s` is above `k`. */
  ghost predicate AllAbove<V>(s: seq<Entry<V>>, k: int) {
    forall e :: e in s ==> k < e.key
  }

  /** The value stored under `k`, if any. */
  ghost function Lookup<V>(s: seq<Entry<V>>, k: int): Option<V> {
    if s == [] then None
    else if s[0].key == k then Some(s[0].val)
    else Lookup(s[1..], k)
  }

  /** Store `v` under `k`: a present key has its value replaced, an absent
      key is added at its place in the order. */
  ghost function Insert<V>(s: seq<Entry<V>>, k: int, v: V): seq<Entry<V>> {
    if s == [] then [Entry(k, v)]
    else if s[0].key < k then [s[0]] + Insert(s[1..], k, v)
    else if s[0].key == k then [Entry(k, v)] + s[1..]
    else [Entry(k, v)] + s
  }

  /** Drop the entry stored under `k`, if any. */
  ghost function Remove<V>(s: seq<Entry<V>>, k: int): seq<Entry<V>> {
    if s == [] then []
    else if s[0].key == k then Remove(s[1..], k)
    else [s[0]] + Remove(s[1..], k)
  }

  /** The entry with the least key strictly above `k`. */
  ghost function Next<V>(s: seq<Entry<V>>, k: int): Option<Entry<V>> {
    if s == [] then None
    else if k < s[0].key then Some(s[0])
    else Next(s[1..], k)
  }

  /** The entry with the greatest key strictly below `k`. */
  ghost function Prev<V>(s: seq<Entry<V>>, k: int): Option<Entry<V>> {
    if s == [] then None
    else if s[|s| - 1].key < k then Some(s[|s| - 1])
    else Prev(s[..|s| - 1], k)
  }

  // ----- what the list functions mean -----

  /** Lookup finds a value exactly for the keys present, and on a sorted
      list it is the value stored with that key. */
  lemma {:induction false} LookupSpec<V>(s: seq<Entry<V>>, k: int)
    ensures Lookup(s, k).Some? <==> k in Keys(s)
    ensures Lookup(s, k).Some? ==> Entry(k, Lookup(s, k).value) in s
    ensures Sorted(s) ==> forall e :: e in s && e.key == k ==> Lookup(s, k) == Some(e.val)
  {
    if s != [] {
      SortedTail(s);
      LookupSpec(s[1..], k);
    }
  }

  /** Insert holds the new entry, keeps every entry under another key, and
      holds nothing else. */
  lemma {:induction false} InsertMembers<V>(s: seq<Entry<V>>, k: int, v: V)
    ensures Entry(k, v) in Insert(s, k, v)
    ensures forall e :: e in s && e.key != k ==> e in Insert(s, k, v)
    ensures forall e :: e in Insert(s, k, v) ==> e == Entry(k, v) || e in s
  {
    if s != [] {
      SortedTail(s);
      if s[0].key < k {
        InsertMembers(s[1..], k, v);
      }
    }
  }

  /** Remove keeps exactly the entries under other keys. */
  lemma {:induction false} RemoveMembers<V>(s: seq<Entry<V>>, k: int)
    ensures forall e :: e in Remove(s, k) ==> e in s && e.key != k
    ensures forall e :: e in s && e.key != k ==> e in Remove(s, k)
  {
    if s != [] {
      SortedTail(s);
      RemoveMembers(s[1..], k);
    }
  }

  /** Next picks an entry above `k`, is None exactly when there is none,
      and on a sorted list its key is the least above `k`. */
  lemma {:induction false} NextSpec<V>(s: seq<Entry<V>>, k: int)
    ensures Next(s, k).Some? ==> Next(s, k).value in s && k < Next(s, k).value.key
    ensures Next(s, k).None? <==> forall e :: e in s ==> e.key <= k
    ensures Sorted(s) && Next(s, k).Some? ==>
              forall e :: e in s && k < e.key ==> Next(s, k).value.key <= e.key
  {
    if s != [] {
      SortedTail(s);
      NextSpec(s[1..], k);
    }
  }

  /** Prev picks an entry below `k`, is None exactly when there is none,
      and on a sorted list its key is the greatest below `k`. */
  lemma {:induction false} PrevSpec<V>(s: seq<Entry<V>>, k: int)
    ensures Prev(s, k).Some? ==> Prev(s, k).value in s && Prev(s, k).value.key < k
    ensures Prev(s, k).None? <==> forall e :: e in s ==> k <= e.key
    ensures Sorted(s) && Prev(s, k).Some? ==>
              forall e :: e in s && e.key < k ==> e.key <= Prev(s, k).value.key
  {
    if s != [] {
      SortedFront(s);
      PrevSpec(s[..|s| - 1], k);
    }
  }

  /** On a sorted list, Insert keeps the list sorted, leaves exactly one
      entry under `k`, and grows the list by one exactly when `k` was absent. */
  lemma {:induction false} InsertSorted<V>(s: seq<Entry<V>>, k: int, v: V)
    requires Sorted(s)
    ensures Sorted(Insert(s, k, v))
    ensures forall e :: e in Insert(s, k, v) ==> e == Entry(k, v) || (e in s && e.key != k)
    ensures |Insert(s, k, v)| == if k in Keys(s) then |s| else |s| + 1
  {
    if s != [] {
      SortedTail(s);
      if s[0].key < k {
        InsertSorted(s[1..], k, v);
        var t := Insert(s[1..], k, v);
        SortedCons(s[0], t);
        assert k in Keys(s) <==> k in Keys(s[1..]) by {
          if k in Keys(s) {
            var e :| e in s && e.key == k;
            assert e in s[1..];
          }
        }
      } else if s[0].key == k {
        SortedCons(Entry(k, v), s[1..]);
        assert s[0] in s;
      } else {
        SortedCons(Entry(k, v), s);
        assert k !in Keys(s) by {
          forall e | e in s ensures e.key != k {
            if e != s[0] { assert e in s[1..]; }
          }
        }
      }
    }
  }

  /** On a sorted list, Remove keeps the list sorted and shrinks it by one
      exactly when `k` was present. */
  lemma {:induction false} RemoveSorted<V>(s: seq<Entry<V>>, k: int)
    requires Sorted(s)
    ensures Sorted(Remove(s, k))
    ensures |Remove(s, k)| == if k in Keys(s) then |s| - 1 else |s|
  {
    if s != [] {
      SortedTail(s);
      RemoveSorted(s[1..], k);
      RemoveMembers(s[1..], k);
      var t := Remove(s[1..], k);
      assert s[0] in s;
      if s[0].key == k {
        assert k !in Keys(s[1..]);
      } else {
        SortedCons(s[0], t);
        assert k in Keys(s) <==> k in Keys(s[1..]) by {
          if k in Keys(s) {
            var e :| e in s && e.key == k;
            assert e in s[1..];
          }
        }
      }
    }
  }

  // ----- structural facts about sorted lists -----

  lemma SortedTail<V>(s: seq<Entry<V>>)
    requires |s| > 0
    ensures s == [s[0]] + s[1..]
    ensures forall e :: e in s <==> e == s[0] || e in s[1..]
    ensures Sorted(s) ==> Sorted(s[1..]) && AllAbove(s[1..], s[0].key)
  {
    if Sorted(s) {
      forall e | e in s[1..] ensures s[0].key < e.key {
        var i :| 0 <= i < |s[1..]| && s[1..][i] == e;
        assert s[i + 1] == e;
      }
    }
  }

  lemma SortedFront<V>(s: seq<Entry<V>>)
    requires |s| > 0
    ensures s == s[..|s| - 1] + [s[|s| - 1]]
    ensures forall e :: e in s <==> e == s[|s| - 1] || e in s[..|s| - 1]
    ensures Sorted(s) ==> Sorted(s[..|s| - 1]) && AllBelow(s[..|s| - 1], s[|s| - 1].key)
  {
    var t := s[..|s| - 1];
    if Sorted(s) {
      forall e | e in t ensures e.key < s[|s| - 1].key {
        var i :| 0 <= i < |t| && t[i] == e;
        assert s[i] == e;
      }
    }
  }

  lemma SortedCons<V>(x: Entry<V>, s: seq<Entry<V>>)
    requires Sorted(s) && AllAbove(s, x.key)
    ensures Sorted([x] + s)
  {
    var t := [x] + s;
    forall i, j | 0 <= i < j < |t| ensures t[i].key < t[j].key {
      if i == 0 {
        assert t[j] == s[j - 1];
        assert t[j] in s;
      } else {
        assert t[i] == s[i - 1] && t[j] == s[j - 1];
      }
    }
  }

  /** A sorted list split around one entry: each side is sorted and lies
      on its own side of the middle key, and conversely. */
  lemma SortedSplit<V>(a: seq<Entry<V>>, x: Entry<V>, b: seq<Entry<V>>)
    ensures Sorted(a + [x] + b) <==>
              Sorted(a) && Sorted(b) && AllBelow(a, x.key) && AllAbove(b, x.key)
  {
    if Sorted(a + [x] + b) {
      SplitSorted(a, x, b);
    }
    if Sorted(a) && Sorted(b) && AllBelow(a, x.key) && AllAbove(b, x.key) {
      JoinSorted(a, x, b);
    }
  }

  lemma SplitSorted<V>(a: seq<Entry<V>>, x: Entry<V>, b: seq<Entry<V>>)
    requires Sorted(a + [x] + b)
    ensures Sorted(a) && Sorted(b) && AllBelow(a, x.key) && AllAbove(b, x.key)
  {
    var s := a + [x] + b;
    assert s[|a|] == x;
    forall i, j | 0 <= i < j < |a| ensures a[i].key < a[j].key {
      assert s[i] == a[i] && s[j] == a[j];
    }
    forall e | e in a ensures e.key < x.key {
      var i :| 0 <= i < |a| && a[i] == e;
      assert s[i] == e;
    }
    forall e | e in b ensures x.key < e.key {
      var i :| 0 <= i < |b| && b[i] == e;
      assert s[|a| + 1 + i] == e;
    }
    forall i, j | 0 <= i < j < |b| ensures b[i].key < b[j].key {
      assert s[|a| + 1 + i] == b[i] && s[|a| + 1 + j] == b[j];
    }
  }

  lemma JoinSorted<V>(a: seq<Entry<V>>, x: Entry<V>, b: seq<Entry<V>>)
    requires Sorted(a) && Sorted(b) && AllBelow(a, x.key) && AllAbove(b, x.key)
    ensures Sorted(a + [x] + b)
  {
    var s := a + [x] + b;
    forall i, j | 0 <= i < j < |s| ensures s[i].key < s[j].key {
      if j < |a| {
        assert s[i] == a[i] && s[j] == a[j];
      } else if j == |a| {
        assert s[i] == a[i] && s[j] == x;
        assert s[i] in a;
      } else if i < |a| {
        assert s[i] == a[i] && s[j] == b[j - |a| - 1];
        assert s[i] in a && s[j] in b;
      } else if i == |a| {
        assert s[i] == x && s[j] == b[j - |a| - 1];
        assert s[j] in b;
      } else {
        assert s[i] == b[i - |a| - 1] && s[j] == b[j - |a| - 1];
      }
    }
  }

  lemma DropFirst<T>(a: seq<T>, b: seq<T>)
    requires |a| > 0
    ensures (a + b)[0] == a[0] && (a + b)[1..] == a[1..] + b
  {
  }

  lemma DropLast<T>(a: seq<T>, b: seq<T>)
    requires |b| > 0
    ensures (a + b)[|a + b| - 1] == b[|b| - 1] && (a + b)[..|a + b| - 1] == a + b[..|b| - 1]
  {
  }

  // ----- how the list functions distribute over concatenation -----

  lemma KeysAppend<V>(a: seq<Entry<V>>, b: seq<Entry<V>>)
    ensures Keys(a + b) == Keys(a) + Keys(b)
  {
  }

  lemma {:induction false} LookupAppend<V>(a: seq<Entry<V>>, b: seq<Entry<V>>, k: int)
    ensures Lookup(a + b, k) == if Lookup(a, k).Some? then Lookup(a, k) else Lookup(b, k)
  {
    if a != [] {
      assert (a + b)[1..] == a[1..] + b;
      LookupAppend(a[1..], b, k);
    } else {
      assert a + b == b;
    }
  }

  lemma {:induction false} NextAppend<V>(a: seq<Entry<V>>, b: seq<Entry<V>>, k: int)
    ensures Next(a + b, k) == if Next(a, k).Some? then Next(a, k) else Next(b, k)
  {
    if a != [] {
      assert (a + b)[1..] == a[1..] + b;
      NextAppend(a[1..], b, k);
    } else {
      assert a + b == b;
    }
  }

  lemma {:induction false} PrevAppend<V>(a: seq<Entry<V>>, b: seq<Entry<V>>, k: int)
    ensures Prev(a + b, k) == if Prev(b, k).Some? then Prev(b, k) else Prev(a, k)
  {
    if b != [] {
      assert (a + b)[..|a + b| - 1] == a + b[..|b| - 1];
      PrevAppend(a, b[..|b| - 1], k);
    } else {
      assert a + b == a;
    }
  }

  lemma {:induction false} InsertAfter<V>(a: seq<Entry<V>>, b: seq<Entry<V>>, k: int, v: V)
    requires AllBelow(a, k)
    ensures Insert(a + b, k, v) == a + Insert(b, k, v)
  {
    if a != [] {
      assert a[0] in a;
      assert (a + b)[1..] == a[1..] + b;
      InsertAfter(a[1..], b, k, v);
    } else {
      assert a + b == b;
    }
  }

  /** Inserting the key of the middle entry, above everything on its
      left, overwrites that entry's value in place. */
  lemma InsertReplaces<V>(a: seq<Entry<V>>, x: Entry<V>, b: seq<Entry<V>>, v: V)
    requires AllBelow(a, x.key)
    ensures Insert(a + [x] + b, x.key, v) == a + [Entry(x.key, v)] + b
  {
    calc {
      Insert(a + [x] + b, x.key, v);
      == { assert a + [x] + b == a + ([x] + b); }
      Insert(a + ([x] + b), x.key, v);
      == { InsertAfter(a, [x] + b, x.key, v); }
      a + Insert([x] + b, x.key, v);
      == { assert ([x] + b)[1..] == b; }
      a + ([Entry(x.key, v)] + b);
      a + [Entry(x.key, v)] + b;
    }
  }

  lemma {:induction false} InsertBefore<V>(a: seq<Entry<V>>, b: seq<Entry<V>>, k: int, v: V)
    requires AllAbove(b, k)
    ensures Insert(a + b, k, v) == Insert(a, k, v) + b
  {
    if a != [] {
      assert (a + b)[1..] == a[1..] + b;
      InsertBefore(a[1..], b, k, v);
    } else if b != [] {
      assert b[0] in b;
      assert a + b == b;
    } else {
      assert a + b == [];
    }
  }

  lemma {:induction false} RemoveAppend<V>(a: seq<Entry<V>>, b: seq<Entry<V>>, k: int)
    ensures Remove(a + b, k) == Remove(a, k) + Remove(b, k)
  {
    if a != [] {
      assert (a + b)[1..] == a[1..] + b;
      RemoveAppend(a[1..], b, k);
    } else {
      assert a + b == b;
    }
  }

  /** Removing the key of the middle entry, absent from both sides,
      takes out just that entry. */
  lemma RemoveMiddle<V>(a: seq<Entry<V>>, x: Entry<V>, b: seq<Entry<V>>)
    requires x.key !in Keys(a) && x.key !in Keys(b)
    ensures Remove(a + [x] + b, x.key) == a + b
  {
    calc {
      Remove(a + [x] + b, x.key);
      == { RemoveAppend(a + [x], b, x.key); }
      Remove(a + [x], x.key) + Remove(b, x.key);
      == { RemoveAppend(a, [x], x.key); RemoveAbsent(b, x.key); }
      Remove(a, x.key) + Remove([x], x.key) + b;
      == { RemoveAbsent(a, x.key); assert [x][1..] == []; }
      a + [] + b;
      == { assert a + [] == a; }
      a + b;
    }
  }

  /** Removing the middle entry's key is the same as moving the first
      entry on its right into the middle. */
  lemma RemoveFirstOfRight<V>(a: seq<Entry<V>>, x: Entry<V>, b: seq<Entry<V>>, d: seq<Entry<V>>)
    requires x.key !in Keys(a) && x.key !in Keys(b)
    requires |b| > 0 && d == b[1..]
    ensures a + [b[0]] + d == Remove(a + [x] + b, x.key)
  {
    calc {
      a + [b[0]] + d;
      == { assert b == [b[0]] + d; }
      a + b;
      == { RemoveMiddle(a, x, b); }
      Remove(a + [x] + b, x.key);
    }
  }

  lemma {:induction false} RemoveAbsent<V>(s: seq<Entry<V>>, k: int)
    requires k !in Keys(s)
    ensures Remove(s, k) == s
  {
    if s != [] {
      SortedTail(s);
      assert s[0] in s;
      RemoveAbsent(s[1..], k);
    }
  }

  // ----- the finite-map reading of a sorted list -----

  /** Insert overwrites exactly one key of the map the list denotes. */
  lemma LookupInsert<V>(s: seq<Entry<V>>, k: int, v: V, k': int)
    requires Sorted(s)
    ensures Lookup(Insert(s, k, v), k') == if k' == k then Some(v) else Lookup(s, k')
  {
    InsertSorted(s, k, v);
    InsertMembers(s, k, v);
    var r := Insert(s, k, v);
    LookupSpec(s, k');
    LookupSpec(r, k');
    if k' != k {
      if k' in Keys(s) {
        var e :| e in s && e.key == k';
        assert e in r;
      } else {
        assert k' !in Keys(r);
      }
    }
  }

  /** Remove deletes exactly one key of the map the list denotes. */
  lemma LookupRemove<V>(s: seq<Entry<V>>, k: int, k': int)
    requires Sorted(s)
    ensures Lookup(Remove(s, k), k') == if k' == k then None else Lookup(s, k')
  {
    RemoveSorted(s, k);
    RemoveMembers(s, k);
    var r := Remove(s, k);
    LookupSpec(s, k');
    LookupSpec(r, k');
    if k' != k {
      if k' in Keys(s) {
        var e :| e in s && e.key == k';
        assert e in r;
      } else {
        assert k' !in Keys(r);
      }
    } else {
      assert k !in Keys(r);
    }
  }
}
