# Unbalanced binary search tree (BST.h) in Dafny

This project models `BST<K, V>` from `CIS22C-Final-Group3/CIS22C-Final-Group3/BST.h`.
It is an unbalanced, pointer-linked binary search tree. Each node holds a key and a
value. Duplicate keys are allowed and go right.

The model has three modules:

- `TreeSpec` (`TreeSpec.dfy`) is the abstract view. It defines an immutable `Tree` of
  (key, value) entries and one pure function per operation: `Inserted`, `Lookup`,
  `Leftmost` (findInorderSuccessor) and `Removed`. Each function follows the same
  branches as the C++ code. It also proves the properties of those functions: the
  ordering invariant is kept, the entry multisets change as promised, lookups are
  correct, and so on.
- `BinarySearchTree` (`Bst.dfy`) is the imperative tree.
  - `Node` is a `BST_Node` with mutable `key`, `value`, `left` and `right`. It also
    has a ghost footprint and a ghost abstract subtree.
  - `BST` holds `head`. Its methods are the source's recursive helpers (insert,
    findByKey, remove, findInorderSuccessor, deleteAll) and its public wrappers.
    The mutators (insert, remove) update the nodes in place and are proved to turn
    the abstract tree into `Inserted` or `Removed` of the old one. The lookups
    (findByKey, findInorderSuccessor) change nothing and are proved to return what
    `Lookup` or `Leftmost` gives. `deleteAll` is specified by the sequence of nodes it
    frees.
- `Scenarios` (`Scenarios.dfy`) holds concrete runs on the class. One is the
  duplicate-key run; the others show the defects listed under Findings, each next
  to the corrected run.

Where the code cannot be modelled as written, the model does this:

- Lines 149 and 153 of the recursive `findByKey` call a function `find` that is not
  declared anywhere. They pass three arguments. The model treats both calls as the
  evident recursion `findByKey(searchKey, child)`.
- The public `findByKey` (line 131) dereferences the helper's result even when it is
  null. The model's `FindByKey` returns `Option<V>`, and `None` is a miss. The
  dereference as written is kept as `FindByKeyAsWritten`, whose precondition says
  the key must be found.
- The public `remove` (line 163) drops the helper's result. The model's `Remove`
  stores it in `head`. The code as written is kept as `RemoveAsWritten`.
- The public `deleteAll` (line 251) frees every node but never resets `head`. The
  model's `DeleteAll` sets `head` to null. The code as written is kept as
  `DeleteAllAsWritten`.

The `value` argument of `remove` only travels along with the recursion; the node to
delete is always located by key. So `Removed` takes no value at all. `RemoveAt` is
proved to produce `Removed(old tree, key)` whatever value it is passed.

## Model

| member | source | states |
|---|---|---|
| TreeSpec.Inserted | CIS22C-Final-Group3/CIS22C-Final-Group3/BST.h:97-126 | the tree after insert is never empty and holds the inserted key |
| TreeSpec.InsertedElems | CIS22C-Final-Group3/CIS22C-Final-Group3/BST.h:97-126 | inserting (k, v) adds exactly that one entry to the tree's multiset of entries and exactly one node; nothing is overwritten or merged |
| TreeSpec.InsertedKeys | CIS22C-Final-Group3/CIS22C-Final-Group3/BST.h:97-126 | after insert the key set is the old key set plus k |
| TreeSpec.InsertedOrdered | CIS22C-Final-Group3/CIS22C-Final-Group3/BST.h:113-122 | going left on a strictly smaller key and right otherwise keeps the ordering invariant (left keys smaller, right keys greater or equal) |
| TreeSpec.InsertedDuplicateKept | CIS22C-Final-Group3/CIS22C-Final-Group3/BST.h:118-122 | when the key is already found on the search path, that same entry is still what the search finds after inserting a duplicate, and the duplicate is added as a separate entry |
| TreeSpec.LookupAfterInsert | CIS22C-Final-Group3/CIS22C-Final-Group3/BST.h:97-126 | after inserting a key that was absent, the search by that key finds the inserted value |
| TreeSpec.InsertedAllElems | CIS22C-Final-Group3/CIS22C-Final-Group3/BST.h:97-126 | any sequence of inserts into an ordered tree keeps it ordered and adds exactly the inserted entries |
| TreeSpec.InsertedInOrder | CIS22C-Final-Group3/CIS22C-Final-Group3/BST.h:97-126 | insert adds its key exactly once to the multiset of inorder keys and keeps every other key |
| TreeSpec.InsertedAllInOrder | CIS22C-Final-Group3/CIS22C-Final-Group3/BST.h:97-126 | a sequence of inserts adds exactly the inserted keys, with their multiplicities, to the inorder key sequence |
| TreeSpec.InsertedAllSorted | CIS22C-Final-Group3/CIS22C-Final-Group3/BST.h:97-126 | a tree built from empty by inserts alone holds exactly the inserted entries, and its keys read in order are a sorted permutation of the inserted keys |
| TreeSpec.InOrderKeysContent | CIS22C-Final-Group3/CIS22C-Final-Group3/BST.h:97-126 | the inorder key sequence of any tree has one position per node and holds exactly the tree's keys |
| TreeSpec.OrderedInOrderSorted | CIS22C-Final-Group3/CIS22C-Final-Group3/BST.h:113-122 | on an ordered tree the inorder key sequence is non-decreasing, has one position per node, and holds every key of the tree and no other |
| TreeSpec.Lookup | CIS22C-Final-Group3/CIS22C-Final-Group3/BST.h:134-158 | a hit of the search is an entry of the tree with the search key, ordered or not |
| TreeSpec.LookupCorrect | CIS22C-Final-Group3/CIS22C-Final-Group3/BST.h:134-158 | on an ordered tree the search misses if and only if the key is absent, and a hit is one of the tree's entries with that key |
| TreeSpec.Leftmost | CIS22C-Final-Group3/CIS22C-Final-Group3/BST.h:223-232 | the leftmost entry of a non-empty subtree is one of its entries |
| TreeSpec.LeftmostIsMinimum | CIS22C-Final-Group3/CIS22C-Final-Group3/BST.h:223-232 | the leftmost entry of a non-empty subtree is one of its entries, and on an ordered subtree its key is the minimum key |
| TreeSpec.LookupLeftmost | CIS22C-Final-Group3/CIS22C-Final-Group3/BST.h:214-217 | searching an ordered subtree by its leftmost key finds the leftmost entry, so re-removing the successor by key removes the successor's own node |
| TreeSpec.Removed | CIS22C-Final-Group3/CIS22C-Final-Group3/BST.h:166-221 | remove never adds a node and deletes at most one, ordered or not |
| TreeSpec.RemovedAbsent | CIS22C-Final-Group3/CIS22C-Final-Group3/BST.h:166-180 | removing an absent key leaves the tree unchanged (the search ends at a null link) |
| TreeSpec.RemovedKeys | CIS22C-Final-Group3/CIS22C-Final-Group3/BST.h:166-221 | remove never introduces a key |
| TreeSpec.RemovedElems | CIS22C-Final-Group3/CIS22C-Final-Group3/BST.h:166-221 | removing a present key from an ordered tree deletes exactly the entry the search finds first (one entry, one node) and nothing else |
| TreeSpec.RemovedEntry | CIS22C-Final-Group3/CIS22C-Final-Group3/BST.h:173-219 | along the search path the entries after removal plus the found entry are the entries before removal |
| TreeSpec.RemovedSuccessor | CIS22C-Final-Group3/CIS22C-Final-Group3/BST.h:211-218 | in the two-child case the successor's entry moves up and only the matched entry disappears |
| TreeSpec.RemovedOrdered | CIS22C-Final-Group3/CIS22C-Final-Group3/BST.h:166-221 | remove keeps the ordering invariant in the no-child, one-child and two-child cases |
| BinarySearchTree.NodeCount | CIS22C-Final-Group3/CIS22C-Final-Group3/BST.h:19-20 | the nodes reachable from a link are exactly as many as the entries of its abstract subtree |
| BinarySearchTree.Node.constructor | CIS22C-Final-Group3/CIS22C-Final-Group3/BST.h:103 | a new node holds (k, v), has no children and is a one-entry subtree |
| BinarySearchTree.Node.Relink | CIS22C-Final-Group3/CIS22C-Final-Group3/BST.h:193-196 | overwriting a node's key, value and links with disjoint well-formed subtrees gives the subtree `Branch(l, k, v, r)` |
| BinarySearchTree.Node.SetLeft | CIS22C-Final-Group3/CIS22C-Final-Group3/BST.h:175 | storing the helper's result in `left` makes it the node's left subtree, entry and right subtree unchanged |
| BinarySearchTree.Node.SetRight | CIS22C-Final-Group3/CIS22C-Final-Group3/BST.h:179 | storing the helper's result in `right` makes it the node's right subtree, entry and left subtree unchanged |
| BinarySearchTree.Node.Absorb | CIS22C-Final-Group3/CIS22C-Final-Group3/BST.h:189-210 | the one-child case: the node takes over its only child's entry and links, so it now holds the child's subtree, and the child leaves the footprint |
| BinarySearchTree.BST.constructor | CIS22C-Final-Group3/CIS22C-Final-Group3/BST.h:74-78 | a new tree is empty and valid |
| BinarySearchTree.BST.Insert | CIS22C-Final-Group3/CIS22C-Final-Group3/BST.h:91-95 | the tree becomes `Inserted(old, k, v)`, stays ordered, gains exactly the entry (k, v) and one node, keeps every node it had and adds only fresh ones, and a non-null head is kept |
| BinarySearchTree.BST.InsertAt | CIS22C-Final-Group3/CIS22C-Final-Group3/BST.h:97-126 | on an empty tree the new node becomes head; otherwise the given subtree becomes `Inserted(old subtree, k, v)` and the same root node is returned; every node of the old subtree stays in the new one and every other node is fresh |
| BinarySearchTree.BST.FindNode | CIS22C-Final-Group3/CIS22C-Final-Group3/BST.h:134-158 | the result is null exactly when the abstract search misses; otherwise it is a node of the subtree with the search key, holding the value the search finds |
| BinarySearchTree.BST.FindByKey | CIS22C-Final-Group3/CIS22C-Final-Group3/BST.h:128-132 | None if and only if the key is absent; a hit is an entry of the tree and the first match on the search path |
| BinarySearchTree.BST.FindByKeyAsWritten | CIS22C-Final-Group3/CIS22C-Final-Group3/BST.h:128-132 | the unguarded dereference is defined only when the helper finds a node, and then the key is present and the value is the first match |
| BinarySearchTree.BST.FindInorderSuccessor | CIS22C-Final-Group3/CIS22C-Final-Group3/BST.h:223-232 | the loop stops at a node of the subtree with no left child, whose entry is the leftmost entry and whose key is the minimum on an ordered subtree |
| BinarySearchTree.BST.Remove | CIS22C-Final-Group3/CIS22C-Final-Group3/BST.h:160-164 | the tree becomes `Removed(old, key)` and stays ordered; an absent key changes nothing; a present key loses exactly its first-found entry and the size drops by one; the footprint only shrinks |
| BinarySearchTree.BST.RemoveAsWritten | CIS22C-Final-Group3/CIS22C-Final-Group3/BST.h:160-164 | the helper's result holds `Removed(old, key)` but `head` is left as it was |
| BinarySearchTree.BST.RemoveAt | CIS22C-Final-Group3/CIS22C-Final-Group3/BST.h:166-221 | the returned link (null or the same root node) holds `Removed(old subtree, key)` built from the subtree's own nodes; `value` plays no part |
| BinarySearchTree.BST.RemoveMatched | CIS22C-Final-Group3/CIS22C-Final-Group3/BST.h:181-219 | the matched node is freed (no child), absorbs its only child (one child) or takes its successor's entry (two children), and the result holds `Removed(old subtree, its key)` |
| BinarySearchTree.BST.ReplaceWithSuccessor | CIS22C-Final-Group3/CIS22C-Final-Group3/BST.h:211-218 | the node takes the inorder successor's entry and the successor is removed from the right subtree by key, giving `Removed(old subtree, old key)` |
| BinarySearchTree.BST.DeleteAll | CIS22C-Final-Group3/CIS22C-Final-Group3/BST.h:248-252 | every node of the tree is freed exactly once, children before parents, as many as there were entries, and the tree is left empty and valid |
| BinarySearchTree.BST.DeleteAllAsWritten | CIS22C-Final-Group3/CIS22C-Final-Group3/BST.h:248-252 | every node is freed but `head` is unchanged |
| BinarySearchTree.BST.DeleteAllAt | CIS22C-Final-Group3/CIS22C-Final-Group3/BST.h:234-246 | the post-order walk frees exactly the subtree's nodes, each once, each after both of its children, the root last, one per entry |
| Scenarios.BuildBase | CIS22C-Final-Group3/CIS22C-Final-Group3/BST.h:97-126 | inserting (5, "a"), (3, "b") into an empty tree makes 5 the root and 3 its left child |
| Scenarios.BuildWithDuplicate | CIS22C-Final-Group3/CIS22C-Final-Group3/BST.h:97-126 | then inserting (8, "c"), (3, "d") puts the second 3 in the right subtree of the first |
| Scenarios.DuplicateKeyRun | CIS22C-Final-Group3/CIS22C-Final-Group3/BST.h:128-221 | on that tree findByKey(3) gives "b"; after remove(3) it gives "d" |
| Scenarios.DuplicateKeyRemoval | CIS22C-Final-Group3/CIS22C-Final-Group3/BST.h:189-199 | removing key 3 from that tree leaves three entries whose keys read 3, 5, 8 in order |
| Scenarios.RemoveOnlyEntryAsWritten | CIS22C-Final-Group3/CIS22C-Final-Group3/BST.h:163 | removing the only entry with remove as written: the helper returns null while `head` still points at the deleted node |
| Scenarios.RemoveOnlyEntry | CIS22C-Final-Group3/CIS22C-Final-Group3/BST.h:160-164 | the corrected remove leaves `head` null |
| Scenarios.DeleteAllAsWrittenRun | CIS22C-Final-Group3/CIS22C-Final-Group3/BST.h:251 | after deleteAll as written `head` is non-null and is one of the freed nodes |
| Scenarios.DeleteAllRun | CIS22C-Final-Group3/CIS22C-Final-Group3/BST.h:248-252 | the corrected deleteAll frees the one node and leaves `head` null, so a second call frees nothing |
| Scenarios.FindMissingKeyAsWritten | CIS22C-Final-Group3/CIS22C-Final-Group3/BST.h:131 | the helper returns null for a missing key, which the public findByKey would dereference |
| Scenarios.FindMissingKey | CIS22C-Final-Group3/CIS22C-Final-Group3/BST.h:128-132 | the corrected findByKey reports the miss as None |

## Left out

- The key type `K` is modelled as `int`. The source needs only `<`, `>` and `==` on keys, and the model assumes they form a total order.
- The `count` field (line 19) is left out. The source initialises it to 0 and never updates it. `NodeCount` together with `Size` gives the number of entries instead.
- `getHead` (lines 86-90) is left out. It only returns the `head` pointer, which the model exposes as the field `head`.
- The destructor (lines 80-84) and the `virtual` on `deleteAll` are left out. The destructor only calls `deleteAll`. Its effect on a tree left by `DeleteAllAsWritten` appears only under Findings.
- Memory release (`delete`) is not modelled. A freed node is one that leaves the footprint, and `DeleteAllAt` returns the ghost order in which nodes are freed. A use of a freed node is therefore not a verification error. The Findings show the dangling `head` pointers instead.
- `BST_Node.h` is not part of this model. `Node` assumes the constructor the source calls: it stores the key and value and sets both children to null.
- The header comment's "using a queue" for `deleteAll` is not modelled. The code walks the tree recursively, and the model does the same.
- Recursion depth and running time on degenerate (chain-shaped) trees are not modelled.
- BinarySearchTree.BST.InsertAt: requires that `root` be null whenever `head` is null. The source only ever passes `head` or a subtree of it.
- BinarySearchTree.BST.FindByKey: returns a copy of the value in `Option<V>`. The source returns a reference `V&` (lines 65, 129-131), through which a caller can change the stored value in place. Updates through that reference, and how long the reference stays valid, are not modelled.
- Lines 149 and 153 call the undeclared `find`. They are modelled as the recursive `findByKey` on the child, because no behaviour exists to model as written.

## Findings

| source | as written | input that shows it | evidently intended | confidence | as-written member | corrected member |
|---|---|---|---|---|---|---|
| CIS22C-Final-Group3/CIS22C-Final-Group3/BST.h:163 | `remove(key, value)` calls the helper and drops its result, so `head` is never updated | insert (5, "a"), then remove(5, "a"): the helper frees the only node and returns null, but `head` still points at it | `head = remove(key, value, head);` | high (not executed) | Scenarios.RemoveOnlyEntryAsWritten | BinarySearchTree.BST.Remove |
| CIS22C-Final-Group3/CIS22C-Final-Group3/BST.h:251 | `deleteAll()` frees every node but leaves `head` pointing at the freed root; the destructor then frees it again | insert (5, "a"), then deleteAll(): `head` is non-null and one of the freed nodes | set `head` to null after the walk | high (not executed) | Scenarios.DeleteAllAsWrittenRun | BinarySearchTree.BST.DeleteAll |
| CIS22C-Final-Group3/CIS22C-Final-Group3/BST.h:131 | `findByKey(searchKey)` dereferences the helper's result even when it is null | insert (5, "a"), then findByKey(3): the helper returns null | report the miss to the caller | high (not executed) | Scenarios.FindMissingKeyAsWritten | BinarySearchTree.BST.FindByKey |
