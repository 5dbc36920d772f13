# AVL map and equal leaf depths, modelled in Dafny

This project models two tree algorithms from a C++ data-structures assignment.

**The AVL map layer (`avlbst.h`).** `AVLTree<Key, Value>` is a binary search tree whose nodes carry a signed balance factor. The model is the class `AvlTree.AVLTree<V>`, with `int` keys. Its nodes live in an arena: the map `nodes` from node id to a record holding key, value, left, right, parent and balance. The field `root` stands for `root_`, and `nextId` hands out fresh ids the way `new` hands out fresh addresses. Two ghost fields support the proofs:
- `sub` gives the set of ids in each node's subtree. It makes "linked", "acyclic" and "ordered" statable, and it gives the loops their termination measures.
- `idOf` maps each key to the id of its node. It makes the key-to-value map `Contents()` a plain `map<int, V>`.

`Valid()` says three things. The links agree: a child's parent pointer names its parent, and the root has no parent. The subtree sets are those the links describe. Every key of a left subtree is smaller than its node's key, and every key of a right subtree is larger.

Each operation of the source is a method of the class. The methods follow the source's steps and pointer updates: the descent loop of `internalInsert`, the two rebalancing walks, the rotations, and the splice in `remove`. Each method computes the new node map as a local value and stores it with one assignment; the rotations also write `root` when the rotated node was the root.

The rebalancing rules are modelled as written, not as textbook AVL:
- The update in `rebalanceAfterInsert` changes a balance only at a node with exactly one child. Its third and fourth branches never fire.
- `rebalanceAfterRemove` uses the children's balances as stand-ins for their heights.
- `rotateLeft` zeroes both balances.
- `rotateRight` recomputes both balances from the old values.

Where the source dereferences a pointer it never checks, and that pointer can be null, the walk stops with the outcome `NullChild` and leaves the tree as it is. For example, insert 3, 1, 2 into a new tree and then remove 1. The removal walk computes balance −2 at node 2 and calls `rotateRight` on 3, which has no left child. `AvlScenarios.InsertThenRemove` makes exactly these calls on an `AVLTree` and proves that the walk ends with `NullChild`.

The module `AvlBalance` relates the stored balance arithmetic to true subtree heights on bare tree shapes. It is a separate model: no lemma maps an arena to its shape.

**The equal-paths check (`equal-paths.cpp`).** `equalPaths(root)` answers whether every leaf sits at the same depth. Its helper `IfEqualPaths` passes the depth of the first leaf it reaches through a by-reference `int&`. The model is the function `EqualPaths.IfEqualPaths`, which returns the answer together with the final value of that reference. It is proved to answer exactly "all leaf depths are equal".

Files:
- `arena.dfy` (`AvlArena`): the arena, well-formedness and the contents map.
- `rotations.dfy` (`AvlRotations`): the rotations as state relations, and proofs that they keep the tree valid.
- `insertion.dfy` (`AvlInsertion`): the search path, leaf attachment and value overwrite.
- `removal.dfy` (`AvlRemoval`): the predecessor, the position swap and the splice.
- `avl_tree.dfy` (`AvlTree`): the `AVLTree` class and its operations.
- `balance.dfy` (`AvlBalance`): balance arithmetic against heights.
- `scenarios.dfy` (`AvlScenarios`): the run insert 3, 1, 2, remove 1, stage by stage.
- `equal_paths.dfy` (`EqualPaths`): the equal-paths check.

## Model

| member | source | states |
|---|---|---|
| AvlTree.AVLTree.constructor | avlbst.h:130-148 | a new tree is valid and maps nothing: it has no nodes, a null root, and hands out id 0 first |
| AvlTree.AVLTree.Insert | avlbst.h:153-160 | afterwards the map is the old map with k bound to v, and the tree is valid. No walk runs exactly when k was present. In that case only k's node's value changes, and root and links stay. Otherwise exactly one new node id appears. Into an empty tree, the new node is the root with null parent and balance 0, and the walk finds no parent. Into a non-empty tree, the tree with the new leaf attached on k's search path is valid, and the final tree and outcome are exactly `InsertWalkOf` from the leaf's parent on that tree. A new key takes the next id |
| AvlTree.AVLTree.InternalInsert | avlbst.h:206-237 | the map becomes old[k := v]. The result is null iff k was present, and then only that node's value changed. Otherwise the result is a fresh leaf with key k, value v, null children and balance 0. It hangs on the side chosen by comparing k with its parent, and that parent is a node on k's search path. Into an empty tree it becomes the root. Every other node is untouched |
| AvlTree.AVLTree.PlaceFirst | avlbst.h:209-211 | inserting into an empty tree makes one node, the root, with key k, value v, no children, null parent and balance 0. The map becomes the one entry k to v |
| AvlTree.AVLTree.Overwrite | avlbst.h:223-225 | when the descent finds the key, only that node's value changes. The map rebinds that key, and root, links, balances and ids stay |
| AvlTree.AVLTree.AttachLeaf | avlbst.h:229-236 | a new leaf with key k, value v and balance 0 is attached under its parent on k's side. Its parent pointer names that parent, nothing else changes, and the map gains k to v |
| AvlTree.AVLTree.SearchSlot | avlbst.h:214-227 | the descent stops on a node iff k is a key of the tree, and that node holds k. Otherwise the last node visited lies on k's search path, and its child slot on k's side is null |
| AvlTree.AVLTree.RebalanceAfterInsert | avlbst.h:239-272 | the final tree and outcome are exactly `InsertWalkOf` from node: the loop's walk, step by step |
| AvlTree.InsertWalkStep | avlbst.h:242-270 | one step of that walk at node n, by the balance b = old balance + `InsertDelta`: at 0 it stops `Balanced` with only n's balance changed; at −2 or 2 it stops with `NullChild` where the source would follow a null pointer, and otherwise with `Rotated` in the state `RightFixOf` or `LeftFixOf`; any other b goes on to n's parent |
| AvlTree.InsertWalkValid | avlbst.h:239-272 | the insert walk keeps the tree valid, the node set and the map, and ends `Balanced`, `Rotated`, past the root or at a null pointer |
| AvlTree.InsertWalkShape | avlbst.h:239-272 | an insert walk that ends without a rotation changes only balances: keys, links, subtrees and root stay |
| AvlTree.RightFixValid | avlbst.h:258-262 | the balance −2 fix (right child rotated right when its balance is 1, then the node rotated left) keeps the tree valid, the node set and the map |
| AvlTree.LeftFixValid | avlbst.h:263-267 | the mirror for the balance 2 fix |
| AvlTree.InsertDelta | avlbst.h:244-253 | the balance change is −1 iff only the right child exists, +1 iff only the left child exists, and 0 iff the node has two children or none |
| AvlTree.AVLTree.SetBalance | avlbst.h:79-92 | only the node's balance changes, to b. The tree stays valid and the map is unchanged |
| AvlTree.AVLTree.FixRightHeavy | avlbst.h:258-262 | the balance −2 case reports `NullChild`, changing nothing, exactly when the source would dereference a null child: no right child, or a right child of balance 1 with no left child. Otherwise the state is exactly `RightFixOf`: the right child rotated right when its balance is 1, then the node rotated left. Validity and the map are kept |
| AvlTree.AVLTree.FixLeftHeavy | avlbst.h:263-267 | the mirror for balance 2: the state is exactly `LeftFixOf`, with rotateLeft of the left child when its balance is −1, or `NullChild` with nothing changed |
| AvlTree.AVLTree.RotateLeft | avlbst.h:302-323 | the state after is exactly `RotateLeftOf`, the state RotatedLeft describes. The right child y takes x's place under x's parent, or as root. y's left subtree moves under x, x becomes y's left child, both balances become 0, and nothing else changes |
| AvlTree.AVLTree.RotateRight | avlbst.h:325-346 | the state after is exactly `RotateRightOf`, the state RotatedRight describes. It mirrors RotatedLeft, with y' = y − 1 − max(x, 0) and then x' = x − 1 + min(y', 0) |
| AvlRotations.RotatedLeftIsRotateLeftOf | avlbst.h:302-323 | the relation RotatedLeft leaves one state: the one `RotateLeftOf` writes out node by node |
| AvlRotations.RotatedRightIsRotateRightOf | avlbst.h:325-346 | the relation RotatedRight leaves one state: the one `RotateRightOf` writes out node by node |
| AvlRotations.RotateLeftValid | avlbst.h:302-323 | rotateLeft keeps the tree linked and ordered, and keeps every key-to-value entry |
| AvlRotations.RotateRightValid | avlbst.h:325-346 | rotateRight keeps the tree linked and ordered, and keeps every key-to-value entry |
| AvlTree.AVLTree.Remove | avlbst.h:166-195 | afterwards the map is the old map without key, and the tree is valid. No walk runs, and nothing changes, exactly when key was absent. Otherwise exactly the node that held key is gone, the spliced tree is valid with the map lacking key, and the final tree and outcome are exactly `RemoveWalkOf` from the removed node's parent on the spliced tree. When that node had at most one child, the spliced tree is exactly `SpliceOf` of the old tree and the walk starts at that node's old parent. When it had two children, `pred` is the rightmost node of its left subtree and holds the largest key there, the swapped tree exchanges the positions of the node and `pred` with the balances following the positions, the spliced tree is exactly `SpliceOf` of the swapped tree, and the walk starts at the node's parent in the swapped tree |
| AvlTree.AVLTree.Find | avlbst.h:169-170 | the search finds a node iff key is in the map, and the node it finds holds key |
| AvlTree.AVLTree.Predecessor | avlbst.h:175-177 | the predecessor of a node with a left child lies in that left subtree and has no right child. Its key is larger than every other key there |
| AvlTree.AVLTree.NodeSwap | avlbst.h:197-204 | the two nodes exchange their positions in the tree: links, place under the parent or as root, and subtree. They also exchange balances, so each balance stays with its position |
| AvlTree.AVLTree.SwapPositions | avlbst.h:200 | the two nodes exchange positions, and each keeps its own key, value and balance |
| AvlTree.AVLTree.Splice | avlbst.h:180-193 | a node with at most one child is unlinked. Its child takes its place under its parent, or becomes the root, and its parent pointer is reset. The node is deleted, the map loses exactly its key, and the tree is valid again. The state is exactly `SpliceOf` |
| AvlTree.AVLTree.RebalanceAfterRemove | avlbst.h:274-300 | the final tree and outcome are exactly `RemoveWalkOf` from node with the step bound: the loop's walk, step by step. It keeps the tree valid, the map and the node set, and ends past the root, at an unchecked null child, or when the bound runs out |
| AvlTree.AVLTree.RemoveStep | avlbst.h:278-298 | one pass of the loop at n: n's balance becomes `RemoveBalance` (left child's balance minus right child's, −1 for an absent child). When that is neither −2 nor 2 the step reports `Balanced` and nothing else changes. When it reports `NullChild`, the walk from n ends there in the new state. When it reports `Rotated`, the new state is exactly `RightFixOf` (at −2) or `LeftFixOf` (at 2) of the tree with the stored balance. In every case but `NullChild` the walk from n equals the walk from n's parent in the new state, with one step fewer |
| AvlTree.RemoveWalkStops | avlbst.h:286-295 | where the stored balance is −2 or 2 and the fix would follow a null pointer, the remove walk stops there with `NullChild`, having changed only that balance |
| AvlTree.RemoveWalkNext | avlbst.h:282-298 | otherwise the walk goes on from the parent the node has after its fix, with one step fewer |
| AvlTree.RemoveWalkValid | avlbst.h:274-300 | the remove walk keeps the tree valid, the node set and the map, and ends past the root, at a null pointer or out of steps |
| AvlRemoval.SwapOrderedExcept | avlbst.h:174-178 | after swapping a two-child node with its predecessor, every node but the swapped-down one is still ordered |
| AvlRemoval.SwapLinked | avlbst.h:174-178 | exchanging two nodes' positions keeps the links consistent |
| AvlRemoval.BalancesExchanged | avlbst.h:201-203 | exchanging the two balance fields after the positional swap makes the balances follow the positions |
| AvlRemoval.SpliceValid | avlbst.h:180-193 | unlinking a node with at most one child leaves a valid tree whose map lacks exactly that node's key |
| AvlRemoval.SpliceOfSpliced | avlbst.h:183-193 | the literal pointer steps of the splice produce the spliced state |
| AvlRemoval.SplicedIsSpliceOf | avlbst.h:180-193 | the relation Spliced leaves one state: the one `SpliceOf` writes out |
| AvlRemoval.PredecessorFound | avlbst.h:176 | the rightmost node of a subtree holds its largest key |
| AvlInsertion.AttachValid | avlbst.h:229-236 | attaching a new leaf on k's side of a node on k's search path keeps the tree valid, and adds exactly the entry k to v |
| AvlInsertion.OverwriteValid | avlbst.h:223-225 | overwriting one node's value keeps the tree valid, and rebinds only that node's key |
| AvlInsertion.FirstNodeValid | avlbst.h:209-211 | the first node of an empty tree gives the one-entry map |
| AvlInsertion.KeyFitsOwnPath | avlbst.h:217-227 | every node's key fits every bound on its own search path |
| AvlArena.SameShapeValid | avlbst.h:79-92 | changing only values and balances keeps the tree valid |
| AvlBalance.RightRotationBalances | avlbst.h:344-345 | when the stored balances are the true ones, rotateRight's formulas give the true balances after the rotation |
| AvlBalance.LeftRotationZeroes | avlbst.h:321-322 | rotateLeft's zeroes are the true balances afterwards exactly when x's balance was −2 and y's was −1 |
| AvlBalance.ProxyBalanceAtLeaves | avlbst.h:280-282 | the removal walk's stored balance is the true one when each child is absent or a leaf |
| AvlBalance.ProxyBalanceDiffers | avlbst.h:280-282 | it is not the true balance in general: a node with a full height-2 left subtree and a leaf on the right stores 0 but has balance 1 |
| AvlScenarios.InsertThenRemove | avlbst.h:153-195 | insert 3, 1, 2 into a new tree and remove 1: the remove walk ends with `NullChild`, where the source calls `rotateRight` on node 3, which has no left child |
| AvlScenarios.InsertThreeMakes | avlbst.h:209-211 | insert 3 into the empty tree makes the one-node tree |
| AvlScenarios.InsertOneAttaches | avlbst.h:214-236 | insert 1 can only attach the leaf left of 3 |
| AvlScenarios.InsertOneWalk | avlbst.h:242-270 | the walk then gives 3 balance 1 and passes the root |
| AvlScenarios.InsertTwoAttaches | avlbst.h:214-236 | insert 2 can only attach the leaf right of 1: under 3 it would leave 1 unlinked |
| AvlScenarios.InsertTwoWalk | avlbst.h:242-270 | the walk gives 1 balance −1 and 3 balance 2, then rotates 1 left and 3 right, leaving 2 at the root with balance −1 and 3 with balance 1 |
| AvlScenarios.DoubleRotationAtThree | avlbst.h:302-346 | the two rotations of that fix, state by state |
| AvlScenarios.RemoveOneSplice | avlbst.h:180-193 | removing the leaf 1 leaves 2 with only the right child 3 |
| AvlScenarios.RemoveWalkMeetsNull | avlbst.h:280-289 | from 2, the remove walk stores −1 − 1 = −2, finds the right child 3 of balance 1 with no left child, and stops with `NullChild` |
| EqualPaths.IfEqualPaths | equal-paths.cpp:11-27 | a recorded leaf depth is never changed, and an empty tree answers true, leaving the depth as it was |
| EqualPaths.EqualPathsOf | equal-paths.cpp:30-35 | equalPaths answers true iff all leaf depths are the same |
| EqualPaths.UnsetCorrect | equal-paths.cpp:11-27 | with no depth recorded, the walk answers whether all leaves have the same depth. It records the depth of the first leaf it reaches, right before left, or leaves −1 if there is none |
| EqualPaths.RecordedCorrect | equal-paths.cpp:16-26 | with depth d recorded, the walk answers whether every leaf is at depth d |
| EqualPaths.FirstLeafIsLeaf | equal-paths.cpp:17-19 | the recorded depth is −1 iff the tree has no leaf, and is otherwise the depth of one of its leaves |
| EqualPaths.EmptyTreeEqual | equal-paths.cpp:12-13 | an empty tree answers true |
| EqualPaths.SingleNodeEqual | equal-paths.cpp:16-20 | a single node records depth 0 and answers true |
| EqualPaths.OneChildNotLeaf | equal-paths.cpp:12-24 | a node with one child is not a leaf: its missing side answers true, so the sides may differ in length |
| EqualPaths.UnequalLeaves | equal-paths.cpp:23-26 | leaves at depths 1 and 2 make the answer false |

## Left out

- `bst.h` is not part of this model. Its `internalFind`, `predecessor` and base `nodeSwap` are modelled by their effect: a BST search, the rightmost node of the left subtree, and an exchange of the two nodes' positions.
- Printing, iterators, `clear`, the public `find` API, `KeyError` and the C++ casts, virtual overrides and destructors carry no behaviour here and are not modelled.
- `delete` is modelled as dropping the node id from the arena. Memory itself is not modelled.
- Keys are `int` with `<`, not a generic key type with its own order.
- Balances are unbounded `int`. The `int8_t` storage and its wrap-around are not modelled.
- The AVL height-balance invariant is not proved. The source's rules do not establish it, as the `AvlBalance` lemmas and the crash example above show.
- Null dereferences the source does not check are modelled as the `NullChild` outcome, which leaves the tree unchanged. The crash itself is not modelled.
- AvlTree.AVLTree.RebalanceAfterRemove: takes a step bound `fuel`. After the rotations at a node the walk goes on from that node's new parent, the node that took its place, so the walk need not climb. No measure shows that the literal walk ends, and a walk that exceeds the bound stops with `OutOfFuel`.
- AvlTree.AVLTree.Insert: names the tree with the new leaf attached through the relation `LeafInserted` and validity, not as a function of the old tree. That this leaves one tree is proved only for the trees of `AvlScenarios`.
- AvlTree.AVLTree.Remove: when the removed node has two children, the tree after the predecessor swap is named through the relation `PositionsSwapped`, not as a function of the old tree. The splice and the walk that follow are stated exactly on that tree.
- Each method computes the new node map as a local value and stores it once, so the order of the individual pointer writes inside one operation is not modelled. No step in between is observable.
- The `AvlBalance` lemmas are stated on bare tree shapes, not on the arena, and no lemma maps an arena to its shape. `ProxyBalance` is the rule of `RemoveBalance` restated on shapes, with the children's true balances in place of their stored ones.
- The `Node` type of `equal-paths.h` is not part of this model. It is rendered as a datatype with left and right links. The `int` depth is unbounded.
- EqualPaths.IfEqualPaths: the by-reference `LeafDepth` becomes an argument together with a returned final value. Its full meaning is stated by `UnsetCorrect` and `RecordedCorrect`.
