# LLRB map: a Dafny model

This project models the left-leaning red-black tree library in
`src/llrbtree.c`. The library is a map from signed 64-bit keys to signed
64-bit values. It provides the following operations:

- node creation (`llrbtree_node_init`, `llrbtree_init`);
- the structural primitives (`rotate_left`, `rotate_right`, `flip_colors`,
  `balance`, `move_red_left`, `move_red_right`);
- top-down insertion, which builds 2-3-4 trees;
- an iterative search;
- recursive deletion with a successor swap;
- two level-order walks over a double buffer of node pointers: `llrbtree_bfs`
  prints the tree depth by depth, and `llrbtree_free` releases it depth by
  depth.

The model is functional. A tree is the datatype
`Tree = Leaf | Node(color, left, key, value, right)`, where `Leaf` stands for
a null pointer. Each C routine becomes a pure function on trees or a method
on sequences, returning the new subtree together with the C status code.

Everything about contents is read off the in-order entry sequence
`Trees.Inorder`, which is also what `llrbtree_dfs` prints:

- `Ordered` means the keys are strictly ascending. It is proved equivalent to
  the node-by-node search-tree rule (`Order.OrderedIffSearchTree`).
- `Contents` is the map the sequence denotes.
- `ValidLlrb` adds the shape the insertion keeps: equal black height on every
  path, no red node with a red child, a red right link only beside a red left
  link, and a black root.

Files, one module each:

- `trees.dfy` (`Trees`): the data model and its invariants.
- `order.dfy` (`Order`): facts about ordered entry sequences.
- `primitives.dfy` (`Primitives`): node creation, rotations, flips, `balance`
  and the move-red fix-ups.
- `insertion.dfy` (`Insertion`): insertion.
- `deletion.dfy` (`Deletion`): deletion.
- `search.dfy` (`Search`): search.
- `walk.dfy` (`LevelOrder`): the node buffer and the two level-order walks.

Three behaviours of the code differ from the usual LLRB contract. The model
follows the code:

- **Search.** Search reads the key of an absent left child instead of
  stopping there. For a key the tree does not hold, it reads through a null
  pointer exactly when the descent leaves the tree to the left
  (`Search.SearchAbsent`; see Findings).
- **Delete and black balance.** The delete can leave unequal black heights,
  for absent and present keys alike.
  - For an absent key it still rotates and recolours on the way down and back
    up. In `Deletion.DeleteAbsentReshapes`, the tree built from 1, 2, 3 is
    returned with the same entries but in an unbalanced shape.
  - For a present key, the successor-swap branch (`src/llrbtree.c:312-322`)
    descends right without the `move_red_right` that the other right descent
    does (lines 325-327). In `Deletion.DeletePresentUnbalances`, deleting 2
    from the valid tree built from 0, 3, 2, 1 reports the entry but leaves an
    unbalanced tree.
- **Insertion.** Insertion flips colours before descending, so it builds
  2-3-4 trees. Inserting 1, 2, 3 leaves a black root with two red children.

## Model

| member | source | states |
|---|---|---|
| `Trees.IsRed` | src/llrbtree.c:15-17 | definition of `node && node->color`: an absent node is black (no contract) |
| `Primitives.NewNode` | src/llrbtree.c:3-13 | a new node holds exactly the one given entry, in the requested colour, with no children; it is ordered and has the red-black shape |
| `Primitives.Init` | src/llrbtree.c:19-21 | a new tree is a valid LLRB with a black root that maps the given key to the given value and nothing else |
| `Primitives.RotateLeft` | src/llrbtree.c:23-33 | the in-order sequence is unchanged; with a right child, that child becomes the root and takes the old root's colour, the old root becomes its red left child, and the root moves later in key order; the three carried subtrees and both values are relinked untouched; without a node or a right child, nothing changes |
| `Primitives.RotateRight` | src/llrbtree.c:35-45 | the mirror image of the left rotation: the in-order sequence is unchanged, the left child rises, the old root becomes a red right child, and the root moves earlier in key order; the three carried subtrees and both values are relinked untouched; without a node or a left child, nothing changes |
| `Primitives.FlipColors` | src/llrbtree.c:47-51 | the node and each present child change colour; keys, values, links and both subtrees' in-order sequences stay as they were |
| `Primitives.FlipColorsTwice` | src/llrbtree.c:47-51 | flipping twice restores the original tree |
| `Primitives.Balance` | src/llrbtree.c:53-67 | the rebalanced subtree is present and holds the same in-order sequence |
| `Primitives.MoveRedLeft` | src/llrbtree.c:260-273 | the in-order sequence is unchanged; the subtree root can only move to a later position in key order; an absent node is left alone |
| `Primitives.MoveRedRight` | src/llrbtree.c:275-284 | the in-order sequence is unchanged; the subtree root can only move to an earlier position in key order; an absent node is left alone |
| `Insertion.PreSplit` | src/llrbtree.c:74-76 | splitting before the descent keeps the node's entry and the in-order sequence of the node and of each child |
| `Insertion.PreSplitShape` | src/llrbtree.c:74-76 | splitting a 4-node gives a red node with two black children, each without red children, of equal black height |
| `Insertion.FixUp` | src/llrbtree.c:84-89 | the rotations on the way back up keep the in-order sequence |
| `Insertion.FixUpRotateLeft` | src/llrbtree.c:84-86 | rotating away a lone red right link keeps the colour and black height and leaves a left-leaning node with a red left child |
| `Insertion.FixUpRotateRight` | src/llrbtree.c:87-89 | rotating away two red left links in a row leaves a node with two red children, of the same black height and colour |
| `Insertion.InsertAtInorder` | src/llrbtree.c:69-92 | on an ordered subtree, the new entry sits between the entries with smaller keys and those with larger keys, and an entry with the same key is replaced |
| `Insertion.InsertAt` | src/llrbtree.c:69-92 | the recursion always returns a present node that holds the inserted key, whether or not the tree is ordered |
| `Insertion.InsertAtShape` | src/llrbtree.c:69-92 | one recursion level keeps black height and left-leaning, and produces red-red links only where the caller's rotation removes them |
| `Insertion.InsertSplitShape` | src/llrbtree.c:69-92 | the shape step for a 4-node, which is split before the descent |
| `Insertion.InsertRedShape` | src/llrbtree.c:69-92 | the shape step for a red node |
| `Insertion.InsertBlackShape` | src/llrbtree.c:69-92 | the shape step for a black node that is not a 4-node |
| `Insertion.Insert` | src/llrbtree.c:94-100 | the resulting root is present and black, and holds the inserted key |
| `Insertion.InsertOrdered` | src/llrbtree.c:94-100 | on an ordered tree the new entry is spliced in at its place in key order, so the tree stays ordered |
| `Insertion.InsertContents` | src/llrbtree.c:77-83 | the map is updated at the key to the new value, and every other key is left alone; an existing key only has its value overwritten |
| `Insertion.InsertCount` | src/llrbtree.c:77-83 | a new key adds exactly one entry and an existing key adds none |
| `Insertion.InsertValid` | src/llrbtree.c:94-100 | insertion keeps a tree a valid LLRB: ordered, balanced, no red-red link, left-leaning, black root |
| `Insertion.InsertAscendingThree` | src/llrbtree.c:69-100 | inserting 1, 2, 3 into an empty tree gives the black root 2 with red children 1 and 3 |
| `Deletion.Leftmost` | src/llrbtree.c:314-315 | the entry the successor loop stops at is the first entry of the right subtree in in-order sequence (the smallest key when the subtree is ordered) |
| `Deletion.SetLeftmost` | src/llrbtree.c:316-321 | writing the doomed entry into the leftmost node replaces the first in-order entry and nothing else |
| `Deletion.Swapped` | src/llrbtree.c:312-321 | after the swap, the node carries its successor's entry, and its right subtree starts with the doomed entry in the successor's place |
| `Deletion.DeleteAt` | src/llrbtree.c:286-333 | the status is 0 or -6; it is 0 exactly when an entry is reported, and a reported entry has the key asked for |
| `Deletion.LeftStep` | src/llrbtree.c:292-296 | deleting from the left subtree of an ordered node deletes from the node |
| `Deletion.RightStep` | src/llrbtree.c:324-329 | deleting from the right subtree of an ordered node deletes from the node |
| `Deletion.RemoveStep` | src/llrbtree.c:301-311 | a node holding the key with no right child is replaced by its left child, and its entry is reported |
| `Deletion.SwappedOrdered` | src/llrbtree.c:312-322 | after the swap the right subtree is ordered, holds the key, and without it is the old right subtree minus its first entry |
| `Deletion.SwapStep` | src/llrbtree.c:312-322 | deleting the key from the swapped right subtree deletes the node's own entry from the node |
| `Deletion.DeleteAtCorrect` | src/llrbtree.c:286-333 | on any ordered subtree, a present key's entry is removed and reported with status 0; an absent key gives -6, no entry and the same in-order sequence |
| `Deletion.Delete` | src/llrbtree.c:335-345 | a non-empty result has a black root; an empty tree gives -6, no entry and an empty tree |
| `Deletion.DeleteCorrect` | src/llrbtree.c:335-345 | on an ordered tree, exactly the entry with the key is removed and reported, or -6 is returned and every entry is kept; the tree stays ordered |
| `Deletion.DeleteContents` | src/llrbtree.c:335-345 | the map loses exactly the key; status 0 exactly when the key was present; the reported entry carries the value the map held |
| `Deletion.DeleteCount` | src/llrbtree.c:335-345 | a present key costs exactly one entry and an absent key costs none |
| `Deletion.DeleteAfterInsert` | src/llrbtree.c:335-345 | deleting a key just inserted into an ordered tree that lacked it restores the old map |
| `Deletion.DeleteAbsentReshapes` | src/llrbtree.c:286-333 | deleting an absent key from the tree built from 1, 2, 3 returns -6 and the same entries, in a different tree with unequal black heights |
| `Deletion.DeletePresentUnbalances` | src/llrbtree.c:312-322 | deleting the present key 2 from the valid tree built from 0, 3, 2, 1 returns 0 and the entry, but leaves a tree with unequal black heights |
| `Search.Status` | src/llrbtree.c:186-202 | a search gives 0 exactly when it finds a node, -1 exactly for an empty tree, -6 exactly when it runs off the tree without a null read, and no status exactly when it dereferences a null pointer |
| `Search.Walk` | src/llrbtree.c:189-200 | the do-while loop entered at a present node never reports an empty tree, and a node it reports holds the key |
| `Search.SearchOutcome` | src/llrbtree.c:186-202 | -1 exactly for the null tree; a reported node holds the key |
| `Search.SearchLoop` | src/llrbtree.c:186-202 | the do-while loop ends in the outcome `SearchOutcome` describes, and a node it reports holds the key |
| `Search.WalkSound` | src/llrbtree.c:189-200 | a node the loop reports holds the key and is an entry of the tree, and the loop never reports an empty tree |
| `Search.WalkComplete` | src/llrbtree.c:189-200 | on an ordered tree the loop finds every key the tree holds |
| `Search.SearchCorrect` | src/llrbtree.c:186-202 | on an ordered tree the search succeeds exactly for present keys, with the node holding the key; status -1 exactly for an empty tree |
| `Search.WalkAbsent` | src/llrbtree.c:189-201 | for a key the subtree does not hold, the loop reads through a null pointer when the descent leaves to the left, and returns -6 otherwise |
| `Search.SearchAbsent` | src/llrbtree.c:186-202 | for a key a non-empty tree does not hold, the search reads through a null pointer exactly when the descent leaves to the left, and returns status -6 exactly when it leaves to the right; this holds on every tree |
| `Search.SearchLeftOfLeafDerefs` | src/llrbtree.c:194-197 | on the valid one-entry tree with key 5, searching for 3 steps onto the absent left child and reads it |
| `Search.GuardedWalkCorrect` | src/llrbtree.c:189-200 | the guarded descent never dereferences a null pointer; on an ordered subtree it finds a node exactly for present keys, and that node holds the key |
| `Search.GuardedSearchCorrect` | src/llrbtree.c:186-202 | the guarded search never dereferences a null pointer; -1 exactly for an empty tree; success exactly for present keys |
| `Search.WalkAgrees` | src/llrbtree.c:189-200 | wherever the loop as written does not dereference a null pointer, it agrees with the guarded descent, on any tree |
| `Search.SearchAgrees` | src/llrbtree.c:186-202 | the corrected search differs from the search as written only where the latter dereferences a null pointer |
| `LevelOrder.Push` | src/llrbtree.c:102-112 | a full buffer doubles its capacity before appending; a failed reallocation returns -2 and leaves the buffer unchanged; the buffer never holds more than its capacity |
| `LevelOrder.Pop` | src/llrbtree.c:114-121 | an empty buffer gives a null node and -10; otherwise the last node is taken off and the rest is kept |
| `LevelOrder.PopAfterPush` | src/llrbtree.c:102-121 | popping right after a successful push returns the pushed node and the old contents |
| `LevelOrder.ChildrenOfLevel` | src/llrbtree.c:149-170 | pushing the present children of one depth's nodes, left to right, gives exactly the next depth |
| `LevelOrder.Round` | src/llrbtree.c:149-170 | one outer round reports the entries of the current nodes in order, and fills the other buffer with their present children, left first |
| `LevelOrder.Advance` | src/llrbtree.c:148-179 | after a round and the buffer swap, the current buffer holds the next depth and the other is empty |
| `LevelOrder.LevelWalk` | src/llrbtree.c:130-184 | a null tree returns -1; otherwise the walk returns 0 after one round per depth, each holding that depth's entries |
| `LevelOrder.Bfs` | src/llrbtree.c:130-184 | one non-empty printed line per depth, holding that depth's entries left to right |
| `LevelOrder.LevelsCover` | src/llrbtree.c:221-254 | the depths of a tree hold exactly its entries, each once |
| `LevelOrder.Free` | src/llrbtree.c:204-258 | every node of the tree is released exactly once, and a null tree returns -1 |

## Left out

- Output: `llrbtree_dfs`, the `printf` calls of `llrbtree_bfs`, and the
  message `llrbtree_node_delete` prints for a missing key are not modelled as
  I/O. The walk methods return the printed entries instead, and
  `Trees.Inorder` is the sequence `llrbtree_dfs` prints. The `%llu` format
  `llrbtree_bfs` uses for signed keys is not modelled.
- `main` is a demonstration driver and is not part of this model.
- Allocation failure: `malloc` in `llrbtree_node_init` and in both walks, and
  the -2 results that follow from it, are not modelled. Those operations are
  taken to succeed. `LevelOrder.Push` keeps the failing `realloc` as a
  parameter, but the walks always pass success.
- Null handles: the -1 results of `llrbtree_insert`, `llrbtree_delete` and
  `llrbtree_node_init` for a null `root` or `node` handle are not modelled.
  Trees are values.
- Memory ownership: a node handed back through `deleted`, or freed when
  `deleted` is null, is modelled as the reported `Entry`. The stale child
  pointers of that node are not modelled. `LevelOrder.Free` returns the
  released entries in order instead of releasing memory.
- `Search.SearchLoop`: the `res` out-pointer is modelled as the subtree in
  `Found`. Storing it only when `res` is non-null is not modelled.
- `LevelOrder.Push`: the `size_t` overflow of `size * 2` is not modelled. The
  capacity is an unbounded natural number.
- `Deletion.DeleteCorrect`: states contents and order only, not the
  red-black shape. The code as written does not keep the shape, for absent or
  present keys. `Deletion.DeleteAbsentReshapes` and
  `Deletion.DeletePresentUnbalances` each exhibit a result with unequal black
  heights. The second comes from the successor swap at
  `src/llrbtree.c:312-322`.
- `Primitives.Balance`: states only that the in-order sequence is kept and
  the node stays present. The colour changes are described but not claimed
  as a shape property, for the same reason.
- Key and value width: `Int64` is the range of `int64_t`. No arithmetic is
  done on keys or values, so no wrap-around arises.
- Concurrency and the ownership rules of the C API are outside the model.

## Findings

| source | as written | input that shows it | evidently intended | confidence | as-written member | corrected member |
|---|---|---|---|---|---|---|
| src/llrbtree.c:194-197 | after stepping to the left child, the loop compares the key with `curr->key` without checking that `curr` is non-null | the one-entry tree with key 5 (made by `llrbtree_init`) and search key 3 | test the right step with `else if`, or stop when `curr` becomes null, and report -6 | not executed | `Search.SearchLeftOfLeafDerefs` | `Search.GuardedSearchCorrect` |
