# Left-leaning red-black ordered map

This project is a Dafny model of `RBtree<Key, T>` in `rbtree.h`. That class is an ordered map
stored as a left-leaning red-black (LLRB) tree, the 2-3-tree encoding Sedgewick describes:

- red links lean left;
- no node has two red links;
- every path from the root to a missing child passes the same number of black nodes.

Keys are `int`. Values have any type `V`.

**Trees.** A tree is the immutable datatype `RedBlack.Tree<V>`. Each recursive helper of the
class is a pure function that takes a subtree and returns the replacement subtree. In the C++
these helpers relink pointers in place. The class itself, with its root and its running
`rbtreeSize` counter, is `OrderedMap.RBTree<V>`.

**Meaning of a tree.** Every tree is read through the sequence of its entries in order
(`RedBlack.Entries`). That sequence is compared against a sorted association list
(`AssocList`), whose `Lookup`, `Insert`, `Remove`, `Next` and `Prev` are the reference
semantics of get, put, deleteNode, successor and precursor.

**Class invariant.** `OrderedMap.Valid` says that:

- the root satisfies the LLRB invariants and is black;
- the keys increase in order;
- the counter equals the node count.

Every update keeps `Valid`.

**Modules.**

| module | file | contents |
|---|---|---|
| `Options` | `options.dfy` | the `Option` type |
| `AssocList` | `assoc_list.dfy` | the sorted association list |
| `RedBlack` | `red_black.dfy` | nodes, invariants, size/height, rotations, colour flips, moveRedLeft/Right, balance |
| `Search` | `search.dfy` | get, contains, min, max, successor, precursor |
| `Insertion` | `insertion.dfy` | the recursive put |
| `Deletion` | `deletion.dfy` | the recursive deleteMin, deleteMax and deleteNode |
| `Checks` | `checks.dfy` | isBalanced, is23Tree, height bounds |
| `OrderedMap` | `ordered_map.dfy` | the public operations on the class |

## Model

| member | source | states |
|---|---|---|
| RedBlack.Size | rbtree.h:95-100 | the node count equals the number of in-order entries |
| RedBlack.RotateLeft | rbtree.h:150-162 | the right child becomes the root, takes the old root's colour, and the old root becomes its red left child; the in-order entries are unchanged; black balance and black height are kept |
| RedBlack.RotateRight | rbtree.h:173-184 | mirror of RotateLeft: the left child is promoted, the in-order entries are unchanged, black balance and black height are kept |
| RedBlack.FlipColors | rbtree.h:191-196 | each of the three colours changes, nothing else in the three nodes changes, and the entries are unchanged |
| RedBlack.FlipColorsTwice | rbtree.h:191-196 | two colour flips give back the original node |
| RedBlack.MoveRedLeft | rbtree.h:369-395 | defined wherever the code dereferences safely and its left rotation's assert holds; the in-order entries are unchanged |
| RedBlack.MoveRedRight | rbtree.h:397-408 | requires exactly the three colour asserts of the code; the in-order entries are unchanged |
| RedBlack.Balance | rbtree.h:416-425 | the in-order entries are unchanged, and a node that already leans left is returned as it is |
| Deletion.MoveRedLeftCases | rbtree.h:369-395 | the two shapes moveRedLeft can produce, as closed forms, depending on whether the right child's left child is red |
| Deletion.MoveRedRightCases | rbtree.h:397-408 | the two shapes moveRedRight can produce, as closed forms, depending on whether the left child's left child is red |
| Deletion.BalanceLLRB | rbtree.h:416-425 | balance of a node whose children are valid LLRB subtrees of equal black height yields a valid LLRB subtree of that height, red only when the node was red or both children were red |
| Search.Get | rbtree.h:126-135 | on an ordered tree the result is the value the association list stores under the key, and None when the key is absent |
| Search.Contains | rbtree.h:137-140 | on an ordered tree, true exactly when the key is one of the tree's keys |
| Search.Min | rbtree.h:518-527 | None exactly on the empty tree; otherwise the first in-order entry, whose key is below or equal to every key |
| Search.Max | rbtree.h:529-538 | None exactly on the empty tree; otherwise the last in-order entry, whose key is above or equal to every key |
| Search.Successor | rbtree.h:466-482 | on an ordered tree, the entry with the least key greater than the given key, and None when there is none |
| Search.Precursor | rbtree.h:540-557 | on an ordered tree, the entry with the greatest key smaller than the given key, and None when there is none |
| Search.AsWrittenDiffers | rbtree.h:473 | a one-node tree where comparing values instead of keys gives the wrong successor and the wrong precursor |
| Search.AsWrittenAgrees | rbtree.h:466-482 | when every value equals its key, the as-written successor and precursor agree with the key-ordered ones |
| Insertion.PutEntries | rbtree.h:225-246 | the entries after put are the association-list insert: an existing key's value is overwritten, and otherwise the entry goes in its ordered position |
| Insertion.PutAdded | rbtree.h:229-232 | put reports a new node (the counter increment) exactly when the key was absent |
| Insertion.PutKeepsInvariants | rbtree.h:225-246 | from a valid LLRB tree, put yields a black-balanced tree of the same black height, with no red right link at the root and left-leaning children, and fully left-leaning when the input root was black |
| Insertion.Put | rbtree.h:225-246 | put never returns an empty subtree: every path of the code returns a node; what the result holds, the new-node flag and the invariants are stated by Insertion.PutEntries, Insertion.PutAdded and Insertion.PutKeepsInvariants |
| Deletion.PushRedLeft | rbtree.h:277-278 | the conditional moveRedLeft on the left descent (also rbtree.h:339-340) is defined wherever the code dereferences safely and its rotation assert holds, and keeps the in-order entries |
| Deletion.LeanRight | rbtree.h:303-304 | the conditional right rotation on the right descent (also rbtree.h:346-347) returns a node with the same in-order entries |
| Deletion.PushRedRight | rbtree.h:312-313 | the conditional moveRedRight on the right descent (also rbtree.h:352-353) requires moveRedRight's three colour asserts whenever it borrows, and keeps the in-order entries |
| Deletion.DeleteMinShrinks | rbtree.h:266-283 | from a tree whose root or left child is red, deleteMin keeps the LLRB invariants and the black height, and the result is red only if the input was |
| Deletion.DeleteMinEntries | rbtree.h:266-283 | deleteMin removes exactly the first in-order entry and returns its value |
| Deletion.PushRedRightReady | rbtree.h:302-315 | on the way down deleteMax, after the optional right rotation, every call to moveRedRight meets its three colour asserts and leaves a right child deleteMax may enter |
| Deletion.DeleteMaxShrinks | rbtree.h:301-318 | from a root-red or right-leaning LLRB tree, deleteMax keeps the LLRB invariants and the black height, and the result is red only if the input was |
| Deletion.DeleteMaxEntries | rbtree.h:301-318 | deleteMax removes exactly the last in-order entry and returns its value |
| Deletion.DeleteRightReady | rbtree.h:343-363 | on the way down deleteNode, moveRedRight meets its three colour asserts; after it the node is either the key's (with a right subtree ready for deleteMin) or a node whose right subtree is ready for the recursive delete |
| Deletion.DeleteNodeShrinks | rbtree.h:335-366 | for a key in the tree, deleteNode keeps the LLRB invariants and the black height, and the result is red only if the input was |
| Deletion.DeleteNodeEntries | rbtree.h:335-366 | for a key in the tree, deleteNode removes exactly that key's entry |
| Checks.IsBalancedFromSpec | rbtree.h:577-584 | the recursive check succeeds exactly when the subtree is black-balanced and its black height is the given count |
| Checks.IsBalanced | rbtree.h:562-572 | counts the black nodes on the leftmost path, and answers true exactly when the tree is black-balanced |
| Checks.Is23FromSpec | rbtree.h:641-651 | below the root, the check succeeds exactly when the subtree is left-leaning |
| Checks.Is23TreeSpec | rbtree.h:636-651 | at the root, a red root with a red left child is tolerated; for a black root the check is exactly left-leaning |
| Checks.HeightAtMost | rbtree.h:107-112 | an LLRB tree is at most twice its black height tall, plus one for a red root |
| Checks.HeightLogarithmic | rbtree.h:107-112 | a valid tree of height h holds at least 2^(h/2) - 1 nodes |
| OrderedMap.Empty | rbtree.h:77-81 | the new map is valid and holds nothing |
| OrderedMap.Clear | rbtree.h:431-436 | the cleared map is valid and holds nothing |
| OrderedMap.SizeOf | rbtree.h:90-93 | the count is the number of entries |
| OrderedMap.IsEmpty | rbtree.h:114-119 | when the counter agrees with the node count, true exactly when the map holds no entry |
| OrderedMap.Get | rbtree.h:121-124 | on a valid map, the value stored under the key, or None |
| OrderedMap.Contains | rbtree.h:137-140 | on a valid map, true exactly when the key is present |
| OrderedMap.Min | rbtree.h:506-516 | None exactly on the empty map; otherwise the value of the least-keyed entry |
| OrderedMap.Max | rbtree.h:494-504 | None exactly on the empty map; otherwise the value of the greatest-keyed entry |
| OrderedMap.Successor | rbtree.h:454-461 | on a valid map, the value of the entry with the least greater key, and None when there is none |
| OrderedMap.Precursor | rbtree.h:484-491 | on a valid map, the value of the entry with the greatest smaller key, and None when there is none |
| OrderedMap.IsBalanced | rbtree.h:562-572 | true exactly when the root is black-balanced |
| OrderedMap.Is23Tree | rbtree.h:636-639 | for a black root, true exactly when the tree is left-leaning |
| OrderedMap.Blacken | rbtree.h:211 | painting the root black keeps the entries and turns a valid LLRB tree into one with a black root |
| OrderedMap.Redden | rbtree.h:254-255 | the root-reddening step keeps the entries and makes a valid black-rooted tree ready for deleteMin |
| OrderedMap.PutSpec | rbtree.h:202-213 | put keeps the class invariant, its contents become the association-list insert, and the counter grows by one exactly when the key was absent |
| OrderedMap.GetAfterPut | rbtree.h:202-246 | after put(key, val), get(key) is val and every other key reads as before |
| OrderedMap.DeleteMinSpec | rbtree.h:248-264 | on an empty map nothing changes and None is returned; otherwise the value returned is min(), its entry is removed, the counter drops by one, and the invariant is kept |
| OrderedMap.DeleteMaxSpec | rbtree.h:285-299 | on an empty map nothing changes and None is returned; otherwise the value returned is max(), its entry is removed, the counter drops by one, and the invariant is kept |
| OrderedMap.DeleteNodeSpec | rbtree.h:320-333 | a missing key leaves the map unchanged; otherwise exactly that key is removed, the counter drops by one, and the invariant is kept |
| OrderedMap.GetAfterDelete | rbtree.h:320-366 | after deleteNode(key), get(key) is None and every other key reads as before |
| OrderedMap.ValidPassesChecks | rbtree.h:562-584 | a valid map passes both is23Tree and the isBalanced recursion seeded with its black height |

## Left out

- output, outputOne and their recursion (rbtree.h:602-634): they only print the tree.
- The destructor and the recursive `clear(h)` (rbtree.h:438-452): memory release has no counterpart here. `clear()` is modelled as a reset to the empty map.
- `insert(f, s, flag)` (rbtree.h:586-598): this raw relinking helper bypasses the invariants, and no operation of the map calls it.
- `my_guess` (rbtree.h:653-671): a debugging assertion walk. Its claims are covered by `Search.Successor` and `Search.Precursor`.
- The test driver `rbtree_test.cpp` is not part of this model.
- The generic `Key` type: keys are `int`, which is the key type the driver uses, with `<` as the order.
- `Key()` sentinel: when min, max, successor, precursor, deleteMin or deleteMax have no answer, the code returns a default-constructed `Key()`. The model returns `None` in that case and `Some(value)` otherwise.
- The public `get(key)` dereferences a null pointer when the key is absent. The model returns `None` instead.
- `lastMin`/`lastMax` are declared with type `Key` but are assigned values. The model returns the value with its own type `V`.
- `rbtreeSize` is an `int`, and the model does not model its 32-bit overflow.
- OrderedMap.DeleteMin, OrderedMap.DeleteMax, OrderedMap.DeleteNode: require `Valid`. The code relies on the tree invariants without checking them; without them it can dereference a null child.
- RedBlack.IsRed: carries no contract of its own. It is the code's colour test with a missing child counting as black, and every invariant is stated through it.
- Deletion.DeleteMin, Deletion.DeleteMax, Deletion.DeleteNode: carry no contract of their own. Their contracts are the lemmas `Deletion.DeleteMinShrinks` and `Deletion.DeleteMinEntries`, `Deletion.DeleteMaxShrinks` and `Deletion.DeleteMaxEntries`, and `Deletion.DeleteNodeShrinks` and `Deletion.DeleteNodeEntries`.
- OrderedMap.Put, OrderedMap.DeleteMin, OrderedMap.DeleteMax, OrderedMap.DeleteNode: carry no contract of their own. Their contracts are the lemmas `OrderedMap.PutSpec`, `OrderedMap.DeleteMinSpec`, `OrderedMap.DeleteMaxSpec` and `OrderedMap.DeleteNodeSpec`.
- Checks.IsBalancedFrom, Checks.Is23From, Checks.Is23Tree: carry no contract of their own. Their contracts are the lemmas `Checks.IsBalancedFromSpec`, `Checks.Is23FromSpec` and `Checks.Is23TreeSpec`.
- RedBlack.Height, OrderedMap.HeightOf: carry no contract of their own. They only compute; the height bounds are stated by `Checks.HeightAtMost` and `Checks.HeightLogarithmic`.
- Search.Successor, Search.Precursor: steer by key rather than by value; the code as written is modelled by `Search.SuccessorAsWritten` and `Search.PrecursorAsWritten` (see Findings).

## Findings

| source | as written | input that shows it | evidently intended | confidence | as-written member | corrected member |
|---|---|---|---|---|---|---|
| rbtree.h:473, rbtree.h:548 | successor and precursor decide which subtree to enter by comparing the node's value `cur->val` with the searched key | a map holding only key 1 with value 5, searched at 3: the successor is reported as key 1 although no key exceeds 3, and no precursor is found although key 1 lies below 3 | compare the node's key `cur->key`, so that successor and precursor return the least greater and greatest smaller key | not executed | Search.SuccessorAsWritten, Search.PrecursorAsWritten, Search.AsWrittenDiffers | Search.Successor, Search.Precursor |
