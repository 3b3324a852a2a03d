# qp-trie in Dafny

This project models the core of a Go key-value trie loosely based on a
qp-trie. Keys are byte strings. A branch decides on one critical index into
the key. It keeps a sparse array of up to 257 children, one per character:
the 256 byte values shifted up by one, plus the terminal character 0 for
"the key ended before this index". Leaves hold a whole key and its value.

The model covers:

- the node layer (`node.go`):
  - characters and `charAt`;
  - the sparse child array, ranked with a population count as go-bitset's
    `CountRange` does;
  - `Add`, `Remove`, `lookup`, `childIndex` and `childChars`;
  - `Descend`;
- the trie (`trie.go`):
  - `NewTrie`, `Get`, `Set` (simple insert, update and split insert) and
    `Delete` with contraction;
  - `findCriticalIndex`;
- the traversals (`search.go`): `DepthFirst` with its explicit stack, and
  `BreadthFirst` with its queue.

Go mutates the tree in place. The model rebuilds the path
instead:

- `Mutation.Graft` descends along a key and puts a subtree into the slot
  reached.
- `Mutation.Prune` descends, removes the slot and contracts a branch left
  with one child.

The abstraction of a node is `Nodes.Contents`, the map from keys to values
that it stores. `Nodes.Routed` is the invariant stated at node.go:26-29:
every key sits under the child for its character at the branch's index.
`Nodes.WellFormed` adds what the algorithms rely on:

- critical indices strictly increase down the tree;
- every branch below the root has at least two children;
- the keys under a branch agree on every byte before its index.

`Tries.Good` is the shape `NewTrie` builds (trie.go:18), kept well formed:
a root branch on index 0.

Go panics become `Err` values of `Nodes.Panic`.

The traversals are compared with two reference definitions. `Search.Subtree`
lists the nodes of a subtree in preorder. `Search.Dfs` is the
preorder/postorder event sequence of a recursive depth-first walk. The
callback is a pure function returning `Option<E>`, where `Some` stands for
a non-nil error. A traversal returns the records it passed to the callback,
and the error that stopped it.

## Model

| member | source | states |
|---|---|---|
| Chars.CharFromByte | node.go:16-18 | a byte's character is never the terminal character, and subtracting one gives the byte back |
| Chars.CharAt | node.go:132-138 | the character is terminal exactly when the index is outside the key; otherwise it encodes the key's byte at that index |
| Chars.CharAtAgree | node.go:132-138 | two keys have the same character at an index iff both end before it or both hold the same byte there |
| Chars.CriticalIndex | trie.go:121-133 | the result lies within both keys, the keys agree on every byte before it, and they differ at it when both are long enough |
| Chars.FindCriticalIndex | trie.go:121-133 | the loop over the shorter length returns exactly the critical index |
| Chars.CriticalIndexUnique | trie.go:121-133 | any index with the three properties above is the critical index, so those properties characterise it |
| Chars.CriticalCharsDiffer | trie.go:67-69 | two distinct keys have different characters at their critical index, so a new twig gets two distinct slots |
| Sparse.RankIsCount | node.go:128-130 | the position-by-position population count below c equals the number of present characters below c |
| Sparse.RankInsert | node.go:105 | setting bit c raises the rank of every character above c by one and leaves the rest unchanged |
| Sparse.RankDelete | node.go:115 | clearing bit c lowers the rank of every character above c by one and leaves the rest unchanged |
| Sparse.Empty | node.go:52 | a fresh 257-bit bitmap finds no child under any character, and every character's slot position is 0 |
| Sparse.ChildIndex | node.go:128-130 | a character's slot is the number of present characters below it |
| Sparse.Lookup | node.go:118-126 | a child is found exactly when the character's bit is set, and it is the child at the character's rank |
| Sparse.Add | node.go:98-106 | after adding, the character is present and maps to the new child at its rank; there is one more child; every other character's lookup is unchanged |
| Sparse.Remove | node.go:108-116 | after removing, the character is absent; there is one child fewer; every other character's lookup is unchanged |
| Sparse.ChildChars | node.go:152-163 | one character per child, strictly increasing, each present and labelling the child at the same position |
| Sparse.CharsFromComplete | node.go:152-163 | every present character at or above the starting point appears in the scan |
| Sparse.OnlyChild | trie.go:100-101 | a branch with one child has exactly that child's character present |
| Sparse.Put | trie.go:85-86 | replacing a slot (Remove then Add) leaves the character present and mapped to the new child, with every other lookup unchanged |
| Sparse.Pair | trie.go:79-83 | a twig's array holds exactly the two given characters, each mapped to its child |
| Nodes.NewBranch | node.go:48-55 | a new branch has the given index and no child under any character |
| Nodes.ChildrenInOrder | node.go:75-80 | a branch yields one child per present character, in increasing character order: the i-th child is the one stored for the i-th smallest present character (the order search.go:71-72 pushes them in); a leaf or nil yields none |
| Nodes.LookupChild | node.go:118-126 | a leaf has no children; a branch has a child under c exactly when c is present, and it is the child at c's rank |
| Nodes.ContentsRoute | node.go:26-29 | a key is stored under a routed branch iff it is stored under the child for its character at the branch's index, with the same value |
| Nodes.ContentsOfChild | node.go:26-29 | everything stored under a child is stored under its branch with the same value |
| Nodes.WellFormedIsRouted | node.go:26-29 | the full well-formedness invariant implies that every branch of the tree routes keys by their character |
| Nodes.Descend | node.go:82-96 | the walk ends at a branch; the character is the key's character at that branch's index; the child is that slot; a child branch is returned only when its index lies past the key |
| Nodes.DescendInside | node.go:82-96 | the branch reached is well formed and stores a subset of the start node's contents; when the walk moved on, everything below agrees with the key at the start index |
| Nodes.DescendFinds | node.go:82-96 | a key is stored iff the descent ends at a leaf holding exactly that key, and the leaf holds its stored value |
| Mutation.PutContents | trie.go:85-86 | replacing slot c of a routed branch stores the old contents without the keys under c, plus the new subtree's contents |
| Mutation.PutWellFormed | trie.go:85-86 | replacing a slot with a well-formed subtree that fits the slot keeps the branch well formed |
| Mutation.Graft | trie.go:34-39 | writing a subtree at the end of a descent returns a branch with the same index, a structurally valid tree and no fewer children |
| Mutation.GraftSound | trie.go:73-86 | a graft whose keys fit the slot keeps the tree well formed; the contents lose the keys of the displaced slot and gain the subtree's |
| Mutation.RemoveWellFormed | trie.go:97 | removing a slot keeps the branch well formed and removes exactly the keys stored under it |
| Mutation.ContractWellFormed | trie.go:99-106 | when removing a leaf leaves one child, that child is well formed, stores everything but the key, and has a later index if it is a branch |
| Mutation.Prune | trie.go:91-106 | removing the slot reached by a descent, contracting on the way back, keeps the tree structurally valid |
| Mutation.PruneSound | trie.go:90-108 | removing a stored key's leaf keeps the tree well formed and removes exactly that key; without contraction at the top, the top stays a branch with the same index |
| Splits.Twig | trie.go:78-83 | the new branch sits at the critical index and holds exactly two slots: the new leaf under the key's character and the old child under the critical character |
| Splits.BelowCritical | trie.go:62-70 | every key under the displaced child shares the nearest key's bytes before the critical index and its character at it |
| Splits.TwigWellFormed | trie.go:78-83 | the twig is well formed and stores the displaced child's contents plus the new pair |
| Splits.Split | trie.go:64-86 | a split insert returns a branch with the root's index, or fails only with the critical-index panic or a slot collision |
| Splits.SplitDescent | trie.go:71-76 | re-descending along the nearest key's prefix stops at a branch above the critical index, with an occupied slot holding the nearest key, so the panic at trie.go:74-76 cannot happen |
| Splits.SplitSound | trie.go:64-86 | under the conditions Set establishes, the split insert succeeds, keeps the tree well formed and stores the contents updated with the new pair |
| Tries.NewTrie | trie.go:17-19 | a new trie has a root branch on index 0, is well formed and stores nothing |
| Tries.Get | trie.go:21-27 | Get fails, with a nil-branch panic, exactly when the root is not a branch |
| Tries.GetRefines | trie.go:21-27 | on a well-formed root, Get returns the stored value when the key is stored and nothing otherwise |
| Tries.LeftKeyStored | trie.go:54-60 | when the leftmost walk succeeds, it reaches a key stored under the node |
| Tries.LeftKeyFound | trie.go:54-60 | on a well-formed node, the leftmost walk never meets an empty branch |
| Tries.Set | trie.go:29-88 | Set as written panics on a nil root branch exactly when the root is not a branch; otherwise the root stays a branch with the same index |
| Tries.SetRefines | trie.go:29-88 | outside the case the guard catches, Set as written keeps the NewTrie shape, stores the contents updated with the pair, and reports an update iff the key was stored |
| Tries.SetAgrees | trie.go:35-41 | Set as written and the corrected Set return the same result whenever the simple insert does not skip the branch's prefix |
| Tries.SetCorrected | trie.go:29-88 | the corrected Set fails only on a root that is not a branch, and otherwise keeps the root's index |
| Tries.SetCorrectedRefines | trie.go:29-88 | on every trie of the NewTrie shape, the corrected Set succeeds, keeps that shape, stores the pair over the old contents and reports an update iff the key was stored |
| Tries.LeafGraftSound | trie.go:34-47 | putting the key's leaf into an empty slot, or over the key's own leaf, keeps the tree well formed and stores the contents updated with the pair |
| Tries.SetUpdate | trie.go:42-47 | an update of a stored key refines the map update and sets the update flag |
| Tries.SetIntoEmpty | trie.go:35-41 | a simple insert into a branch without children refines the map update |
| Tries.SetIntoSlot | trie.go:35-41 | a simple insert into an empty slot of a non-empty branch refines the map update, splitting when the key leaves the branch's prefix |
| Tries.SetSplit | trie.go:49-87 | a split insert below an occupied slot refines the map update |
| Tries.Delete | trie.go:90-108 | Delete as written panics exactly when the root is not a branch, and leaves the trie unchanged when it deletes nothing |
| Tries.DeleteRefines | trie.go:90-108 | Delete as written removes exactly the key, keeps the tree well formed and reports whether the key was stored |
| Tries.DeleteContractsRoot | trie.go:99-106 | deleting one of a root's two children replaces the root by the remaining child, which is a leaf or a branch on a later index |
| Tries.DeleteCorrected | trie.go:90-108 | the corrected Delete panics exactly when the root is not a branch, and leaves the trie unchanged when it deletes nothing |
| Tries.DeleteCorrectedRefines | trie.go:90-108 | the corrected Delete keeps the NewTrie shape, removes exactly the key and reports whether it was stored |
| Search.Kids | search.go:68-75 | one preorder record per child, in slot order, one level deeper, with the node's index as the parent index |
| Search.DfsBrackets | search.go:18-20 | a node's depth-first events open with its preorder visit and close with its postorder visit; every event between them is deeper |
| Search.DfsPreorder | search.go:18-20 | the preorder events of a depth-first walk are exactly the nodes of the subtree, and there are twice as many events as nodes |
| Search.DfsPostorder | search.go:18-20 | the postorder events visit each node of the subtree exactly once |
| Search.DfsSiblings | search.go:36-38 | the children of a node are discovered last child first, because they are pushed in slot order onto a stack |
| Search.UntilError | search.go:29-31 | the callback sees a prefix of the events; the run stops at the first error, and it reports none only when every event passed |
| Search.DepthFirst | search.go:21-47 | the stack loop calls the callback on exactly the depth-first events, up to and including the first error |
| Search.Drain | search.go:53-65 | the queue loop visits only nodes of the queued subtrees, and all of them when no error occurs |
| Search.DrainStops | search.go:58-61 | the queue loop stops at the first error |
| Search.DrainHeights | search.go:49-50 | the queue loop visits nodes by non-decreasing height, none shallower than the first queued node |
| Search.BreadthFirst | search.go:51-66 | as written, the walk visits nodes of the subtree other than the start node, all of them when no error occurs, by non-decreasing height, stopping at the first error |
| Search.BreadthFirstCorrected | search.go:51-66 | starting the queue with the start node makes the walk visit the start node first, then every node of the subtree, by non-decreasing height, stopping at the first error |
| Findings.SetLosesKey | trie.go:35-41 | setting abc, abd, axe and axc with Set as written gives a tree in which Get of axe finds nothing |
| Findings.GetMissesAxe | trie.go:21-27 | in the tree built by those four Sets, the descent along axe misses its leaf |
| Findings.SetCorrectedKeepsKey | trie.go:29-88 | the same four insertions with the corrected Set keep the NewTrie shape, and Get of axe finds 3 |
| Findings.DeleteLosesRoot | trie.go:99-106 | after Set [0], Set [1], Delete [0], the root is a leaf and the next Get panics on a nil branch |
| Findings.DeleteCorrectedKeepsRoot | trie.go:99-106 | the corrected Delete on the same trie keeps a root branch, and Get of [1] finds its value |
| SearchFindings.BreadthFirstSkipsRoot | search.go:52 | on a new trie, BreadthFirst as written calls the callback on nothing, although the subtree has one node; the corrected walk visits it |

## Left out

- `Dump`, `buildTree`, `String`, `byteFromChar` and `stringFromChars` are not modelled. They only format text for display.
- go-bitset is a library and is not part of this model. Its bitmap is a `set<nat>`, and `CountRange(0, c)` is `Sparse.Rank`, a count of the present characters below `c`.
- In-place mutation is replaced by rebuilding the path. Sharing and aliasing of nodes are not modelled. The in-place update of a leaf's value in `Set` (trie.go:45) becomes a new leaf in the same slot.
- Values are `interface{}` in the source. The model uses a type parameter `V`.
- The nil-node panic of `Add` (node.go:99-101) cannot happen in the model, because every slot holds a node.
- A nil start node for `DepthFirst` and `BreadthFirst` is not modelled. A traversal starts from a node.
- The callback is a pure function, not arbitrary Go code with effects. An error is `Some(e)`.
- Performance and chunking of the children array are not modelled.
- Tries.SetRefines: holds only when `Tries.SkipsPrefix` is false, because Set as written loses keys in that case (see Findings). `Tries.SetCorrectedRefines` states the promise for every trie.
- The randomised key tapes and benchmarks of the Go tests are not modelled. Their assertions appear above as properties.
- Splits.Split: when the key's character at the critical index equals the critical character, the source's second `Add` would put two children under one bit. The model returns `Err(SlotCollision)` instead. `Chars.CriticalCharsDiffer` and `Splits.SplitSound` show that this cannot happen on a well-formed tree.
- Integer widths (`int`, `uint`) are not modelled. Every index and count is bounded by a key length or by 257.
- node.go:85 says the branch `Descend` starts from is always a Branch node. Delete's contraction (trie.go:99-106) breaks this when it contracts the root. The model follows the code in `Tries.Delete`; the corrected `Tries.DeleteCorrected` keeps the root a branch.

## Findings

| source | as written | input that shows it | evidently intended | confidence | as-written member | corrected member |
|---|---|---|---|---|---|---|
| trie.go:35-41 | the simple insert puts the key in the empty slot reached by the descent, without checking that the key agrees with the branch's keys on the bytes before the branch's index | Set abc, abd, axe, axc in order; Get(axe) then returns not found | when the key differs from the branch's keys before its index, perform a split insert at the critical index, as for an occupied slot | high; not executed | Findings.SetLosesKey | Tries.SetCorrected |
| trie.go:99-106 | Delete contracts the branch reached into its only remaining child, even when that branch is the root | Set [0], Set [1], Delete [0]; the root becomes a leaf and the next Get dereferences a nil branch | the root stays a branch on index 0 and is never contracted | high; not executed | Findings.DeleteLosesRoot | Tries.DeleteCorrected |
| search.go:52 | the queue starts with the start node's children, so the callback never sees the start node | BreadthFirst on a new trie calls the callback zero times, although DepthFirst visits the root | the queue starts with the start node itself, as DepthFirst's stack does | medium; not executed | SearchFindings.BreadthFirstSkipsRoot | Search.BreadthFirstCorrected |
