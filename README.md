# A verified model of the single-tree B+ tree engine

The repository is an in-memory ordered store from integer keys to lists of
integer values, built on a B+ tree. This project models the single-tree
engine: the leaf and internal node operations (`LeafNode`, `InternalNode`) and
the tree operations of `Bplustree`. Those operations are the constructor,
`getOrder`, `findSearchPath`, `search`, `update`, `getLeftLeaf`, and
`insert(key, value)` with its bottom-up split cascade. The model proves
properties of each of them.

Modules, one per concern:

- `SortedSeqs`: lower bound, positional insert and sortedness facts on
  sequences (`std::lower_bound`, `vector::insert`).
- `LeafNodes`, `InternalNodes`: what each node operation does to a node's
  contents, as functions on values, with lemmas about them.
- `Nodes`: the `Node` heap class. Its methods edit `keys`, `values`,
  `children`, `next` and `prev` in place, and each is proved to leave its
  fields exactly as the matching value function says.
- `TreeShape`: the tree invariant `Inv` over a ghost snapshot (`View`) of
  every node, with each node's level and key range. It also defines the
  descent rule (`ChildIndex`, `PathFrom`) and the meaning of `search` (`Find`).
- `TreeSteps`, `TreeSplits`, `TreeClimb`: one lemma per step of `insert`
  and `update`. These show that a step keeps `Inv`, keeps the order bound,
  and keeps the stored keys.
- `TreeLookups`: every split step of `insert` leaves every `search` result
  unchanged (`SameLookups`).
- `BPlusTrees`: the `BPlusTree` class. It holds `root`, `order`, the ghost
  view, the parent map and the chain of leaves. Its methods follow the source
  statement by statement. The `insert` cascade is a `while` loop over the
  remaining search path (`SplitInternals`).

`Valid()` is the tree invariant. It requires the following:

- every node's keys are strictly sorted;
- every internal node has one more child than keys;
- each child's key range lies between its parent's separators;
- the leaves form the circular doubly linked chain in key order;
- every leaf has one value list per key;
- every node holds fewer than `order` keys (when `order` is 2 or more).

`insert` and `update` keep `Valid()`. `insert` adds exactly `key` to the set
of stored keys, so the distinct-key count grows by one for a new key and is
unchanged for a stored key (tests/bplustree_test.cpp:4-21). After `insert`,
every key reads what the leaf insert alone gives it (`FindAfterInsert`): the
splits of the cascade move each list to the half whose range holds its key and
change no lookup. The root changes only when the cascade reaches it. The new
root then holds one key and two children: the old root and a fresh node.

Where a conventional B+ tree and this code differ, the model follows the code:

- For a new key, `LeafNode::insert` puts the key at its sorted position but
  appends the key's one-element value list at the END of the leaf's value
  lists (bplustree/src/leafnode.cpp:38-41, bplustree/src/node.cpp:39-42).
  So the new key reads back `[value]` only when it is the largest key of its
  leaf (`LeafNodes.InsertLargestAligned`). Otherwise it reads back its larger
  neighbour's list (`LeafNodes.InsertBeforeLargerMisaligns`). For example,
  inserting keys in descending order makes each new key read its larger
  neighbour's list: into the leaf {2: [20]}, inserting 1 with value 10 makes
  1 read [20] and 2 read [10] (`LeafNodes.InsertMisalignmentExample`). The
  model keeps this behaviour. `Insert` states the lookups it leads to for
  every key (`FindAfterInsert`), and the insert-then-search round trip for a
  stored key and for a key larger than every stored key. The corrected leaf
  insert is under "## Findings".
- `update` takes no "insert if not found" flag and returns nothing. A key
  that is not stored leaves the tree unchanged. `Bplustree::update` is
  declared `bool`, but it returns the result of `LeafNode::update`, which is
  `void` (bplustree/src/bplustree.cpp:93-97). The model does not invent a
  result.
- The two revisions of the node code (bplustree/src/node.cpp, and
  bplustree/src/leafnode.cpp with bplustree/src/internalnode.cpp) agree
  except in `update`. One revision stores the caller's list pointer
  (node.cpp:104), the other stores a copy (leafnode.cpp:67). Value lists are
  Dafny sequences, so the model has the copying behaviour.

## Model

| member | source | states |
|---|---|---|
| SortedSeqs.LowerBound | bplustree/src/leafnode.cpp:22 | the result is at most the length; every earlier element is smaller than the key; the element at the result, if any, is at least the key |
| SortedSeqs.InsertAt | bplustree/src/internalnode.cpp:13 | the sequence grows by one; the element is at the given position; earlier elements are unchanged and later ones shift by one |
| SortedSeqs.InsertKeepsSorted | bplustree/src/internalnode.cpp:12-13 | inserting an absent key at its lower bound keeps a strictly sorted sequence strictly sorted |
| SortedSeqs.InsertAtCounts | bplustree/src/internalnode.cpp:13 | a positional insert adds exactly one occurrence of the element |
| SortedSeqs.LowerBoundOfInserted | bplustree/src/internalnode.cpp:14 | the second lower-bound search, after the insert, finds the same index as the first |
| LeafNodes.GetValues | bplustree/src/leafnode.cpp:21-29 | a list is returned only for a key the leaf holds; on sorted keys, a list is returned exactly when the key is held, and it is the list in that key's slot |
| LeafNodes.Insert | bplustree/src/leafnode.cpp:31-43 | alignment and sortedness are kept; the keys become the old keys plus `key`; a stored key leaves the keys unchanged; a new key adds one key and appends `[value]` at the end of the value lists |
| LeafNodes.InsertExisting | bplustree/src/leafnode.cpp:31-35 | a stored key's list gains `value` at its end and every other key's lookup is unchanged |
| LeafNodes.InsertLargestAligned | bplustree/src/leafnode.cpp:36-42 | a new key larger than every stored key reads back `[value]` and every other lookup is unchanged |
| LeafNodes.InsertBeforeLargerMisaligns | bplustree/src/leafnode.cpp:36-42 | a new key below some stored key reads back the list of the first larger key, not `[value]` |
| LeafNodes.InsertMisalignmentExample | bplustree/src/node.cpp:38-42 | inserting key 1 with value 10 into the leaf {2: [20]} makes 1 read [20] and 2 read [10] |
| LeafNodes.Split | bplustree/src/leafnode.cpp:45-53 | left keys ++ right keys == old keys, and likewise for the values; the left leaf keeps len/2 slots; the key for the parent is old keys[len/2], which is the right leaf's first key |
| LeafNodes.InsertInSlot | bplustree/src/leafnode.cpp:31-43 | the corrected leaf insert keeps one list per key and adds exactly `key` to the keys |
| LeafNodes.InsertInSlotLookups | bplustree/src/leafnode.cpp:31-43 | with the list in the key's slot, `key` reads back its old list plus `value`, or `[value]` for a new key, every other lookup is unchanged, and the keys stay sorted |
| LeafNodes.SplitLookups | bplustree/src/leafnode.cpp:45-53 | a key below the promoted key reads the same list from the left half as from the whole leaf; any other key reads it from the right half |
| LeafNodes.SplitLookupLeft | bplustree/src/leafnode.cpp:48-53 | a key below the promoted key reads the same list from the left half as from the whole leaf |
| LeafNodes.SplitLookupRight | bplustree/src/leafnode.cpp:48-53 | a key at or above the promoted key reads the same list from the right half as from the whole leaf |
| LeafNodes.SplitOrdered | bplustree/src/node.cpp:63-68 | on sorted keys both halves are sorted, left keys are below the promoted key, right keys are at or above it, and a leaf of two or more keys gives two smaller non-empty halves |
| LeafNodes.Update | bplustree/src/leafnode.cpp:63-70 | the keys are unchanged; on sorted keys `key` reads back `vs` if it was stored and nothing otherwise, and every other lookup is unchanged; an absent key leaves the leaf unchanged |
| InternalNodes.InsertChild | bplustree/src/internalnode.cpp:11-16 | the key goes to its lower-bound position p, adding exactly one occurrence and keeping sorted keys sorted; `right` becomes child p + 1; the other keys and children keep their order; children == keys + 1 is kept |
| InternalNodes.InsertRoot | bplustree/src/internalnode.cpp:18-22 | one key and two children are appended; on an empty node the result is keys [key] and children [left, right] |
| InternalNodes.Split | bplustree/src/internalnode.cpp:24-36 | left keys ++ [promoted] ++ right keys == old keys; left children ++ right children == old children; promoted == old keys[len/2]; the left node keeps len/2 + 1 children; both halves are shaped and smaller |
| InternalNodes.SplitOrdered | bplustree/src/node.cpp:46-58 | on sorted keys both halves are sorted and the promoted key lies strictly between them, in neither half |
| Nodes.Node.Leaf | bplustree/src/leafnode.cpp:3-5 | a new leaf is empty and is its own `next` and `prev` |
| Nodes.Node.Internal | bplustree/src/internalnode.cpp:3-5 | a new internal node has no keys and no children |
| Nodes.Node.GetValues | bplustree/src/node.cpp:82-90 | the result is `LeafNodes.GetValues` of the leaf's fields |
| Nodes.Node.LeafInsert | bplustree/src/node.cpp:32-44 | the fields become `LeafNodes.Insert` of the old fields |
| Nodes.Node.LeafSplit | bplustree/src/leafnode.cpp:45-61 | the two leaves hold `LeafNodes.Split` of the old fields; right.prev == this, right.next == old next, this.next == right, and old next's prev == right |
| Nodes.Node.LeafUpdate | bplustree/src/leafnode.cpp:63-70 | the fields become `LeafNodes.Update` of the old fields |
| Nodes.Node.InsertChild | bplustree/src/node.cpp:19-24 | the fields become `InternalNodes.InsertChild` of the old fields |
| Nodes.Node.InsertRoot | bplustree/src/node.cpp:26-30 | the fields become `InternalNodes.InsertRoot` of the old fields |
| Nodes.Node.InternalSplit | bplustree/src/internalnode.cpp:24-36 | the two nodes hold `InternalNodes.Split` of the old fields, and the right node is fresh |
| TreeShape.ChildIndex | bplustree/src/bplustree.cpp:105-125 | the child picked for `key` is at most the number of keys; the separator on its left is at most `key`; on sorted keys, the separator on its right is above `key` |
| TreeShape.ChildIndexUnique | bplustree/src/bplustree.cpp:109-125 | on sorted keys exactly one child encloses `key`, and the descent rule picks it |
| TreeShape.PathFrom | bplustree/src/bplustree.cpp:100-127 | the path starts at the given node, stays inside the tree, and every later node is at a lower level, so the descent ends |
| TreeShape.SearchLeaf | bplustree/src/bplustree.cpp:100-104 | the node the search path stops at is in the tree and is the start node or below it |
| TreeShape.Find | bplustree/src/bplustree.cpp:129-134 | `search` returns a list only for a key that the reached leaf holds |
| TreeShape.FindByRange | bplustree/src/bplustree.cpp:100-134 | whichever leaf's range holds `key` is the leaf the search reaches, and `search` reads that leaf |
| TreeShape.SameLookupsTrans | bplustree/src/bplustree.cpp:15-52 | two steps that each keep every lookup together keep every lookup |
| TreeShape.PathFromChild | bplustree/src/bplustree.cpp:105-126 | below a well-formed internal node, the path continues from the routed child one level down and ends at the same leaf |
| TreeShape.PathShape | bplustree/src/bplustree.cpp:100-127 | the path from a node whose range holds `key` is routed: each node is the routed child of the previous one, every range holds `key`, and levels fall by one down to a leaf; its length is the node's level + 1, so from the root it is the tree height |
| TreeShape.SearchLeafOK | bplustree/src/bplustree.cpp:100-104 | the search from the root stops at an aligned leaf whose range holds `key` |
| TreeShape.SearchComplete | bplustree/src/bplustree.cpp:129-133 | the leaf the search reaches holds `key` exactly when the tree holds it |
| TreeShape.FindComplete | bplustree/src/bplustree.cpp:129-134 | `search` returns a list exactly for the stored keys |
| TreeShape.LeftmostLeaf | bplustree/src/bplustree.cpp:158-165 | the only leaf whose range is unbounded below is the first leaf of the chain |
| TreeSteps.LeafInsertStep | bplustree/src/bplustree.cpp:17-20 | inserting into the leaf the search reaches keeps the invariant, bounds every node but that leaf, and adds exactly `key`; a stored key leaves the leaf's size unchanged |
| TreeSteps.LeafInsertKeys | bplustree/src/bplustree.cpp:20 | inserting into a leaf adds exactly `key` to the stored keys |
| TreeSteps.FindAfterLeafInsert | bplustree/src/bplustree.cpp:15-20 | for a stored key, the search then returns the old list with `value` appended, and every other key's search is unchanged |
| TreeSteps.FindAfterLeafInsertAll | bplustree/src/bplustree.cpp:15-20 | after the leaf insert, every key reads `FindAfterInsert`: keys routed elsewhere read what they did, keys routed to the reached leaf read it after `LeafNode::insert` |
| TreeSteps.InsertLargestFound | bplustree/src/leafnode.cpp:36-42 | a key larger than every key of the leaf it reaches reads back `[value]` after the insert, and every other key reads what it did |
| TreeSteps.InsertLookups | bplustree/src/bplustree.cpp:15-52 | a cascade that keeps every lookup after the leaf insert ends with `FindAfterInsert` for every key; a key larger than every stored key then reads back `[value]` and every other key reads what it did |
| TreeSteps.LeafUpdateStep | bplustree/src/bplustree.cpp:93-97 | updating the leaf the search reaches keeps the invariant, the bound and the stored keys |
| TreeSteps.FindAfterLeafUpdate | bplustree/src/bplustree.cpp:93-97 | after the update, `key` reads back `vs` if it was stored and nothing otherwise; every other key reads back what it did before |
| TreeSteps.FindLeafFrame | bplustree/src/bplustree.cpp:129-134 | changing one leaf changes no search path; the search reads the new contents only for keys routed to that leaf |
| TreeSplits.ChainAfterLeafSplit | bplustree/src/leafnode.cpp:55-58 | after a leaf split, the new right leaf sits right after the split leaf in the circular chain, and the chain stays well formed |
| TreeSplits.KeysAfterLeafSplit | bplustree/src/leafnode.cpp:45-53 | splitting a leaf keeps the stored keys |
| TreeSplits.BoundedAfterLeafSplit | bplustree/src/bplustree.cpp:21-23 | splitting the leaf that reached `order` keys leaves every node below `order` |
| TreeSplits.BoundedAfterInternalSplit | bplustree/src/bplustree.cpp:33-34 | splitting the internal node that reached `order` keys leaves every node below `order` |
| TreeSplits.BoundedAfterSeparator | bplustree/src/bplustree.cpp:32 | the parent that takes the promoted key is the only node that may reach `order` |
| TreeSplits.BoundedAfterNewRoot | bplustree/src/bplustree.cpp:25-27 | a new one-key root keeps every node below `order` |
| TreeSplits.ParentAfterSplit | bplustree/src/internalnode.cpp:11-16 | a parent that takes the promoted key and the new right child, beside the split child, stays well formed |
| TreeSplits.NewRootOK | bplustree/src/internalnode.cpp:18-22 | a new root over the two halves of a split is well formed |
| TreeSplits.LeafSplitUnderParent | bplustree/src/bplustree.cpp:21-32 | splitting a full leaf below the root and inserting the promoted key and new leaf into its parent keeps the invariant, with the new leaf adopted and spliced into the chain |
| TreeSplits.LeafSplitAtRoot | bplustree/src/bplustree.cpp:21-28 | splitting a full root leaf under a fresh root keeps the invariant, with the fresh root as the root |
| TreeSplits.InternalSplitUnderParent | bplustree/src/bplustree.cpp:33-39 | splitting a full internal node and inserting into its parent keeps the invariant; the moved children get the new node as their parent |
| TreeSplits.InternalSplitAtRoot | bplustree/src/bplustree.cpp:40-44 | splitting a full internal root under a fresh root keeps the invariant |
| TreeClimb.ClimbStart | bplustree/src/bplustree.cpp:17-19 | popping the leaf off the search path leaves a routed climb from that leaf to the root |
| TreeClimb.ClimbPop | bplustree/src/bplustree.cpp:36-37 | popping the next node off the climb gives the routed parent, one level up, and a climb up to it |
| TreeClimb.Settled | bplustree/src/bplustree.cpp:33-51 | when the node that took the last key is not full, every node is below `order` |
| TreeClimb.SearchClimb | bplustree/src/bplustree.cpp:16-19 | the search path without its leaf is a climb from that leaf to the root |
| TreeClimb.LeafInsertClimbs | bplustree/src/bplustree.cpp:15-20 | after the leaf insert, the climb state holds from that leaf: invariant, every other node bounded, and a routed path to the root |
| TreeClimb.LeafInsertStores | bplustree/src/bplustree.cpp:20 | the leaf holds `key`; the stored keys gain exactly `key`; a stored key leaves every node below `order` |
| TreeClimb.LeafSplitClimbs | bplustree/src/bplustree.cpp:21-32 | a full leaf below the root splits into its parent, and the climb state holds from that parent with the stored keys kept |
| TreeClimb.LeafSplitClimbsAtRoot | bplustree/src/bplustree.cpp:21-28 | a full root leaf splits under a fresh root; everything is bounded and the stored keys are kept |
| TreeClimb.InternalSplitClimbs | bplustree/src/bplustree.cpp:33-39 | a full internal node splits into its parent, and the climb state holds from that parent with the stored keys kept |
| TreeClimb.InternalSplitClimbsAtRoot | bplustree/src/bplustree.cpp:40-44 | a full internal root splits under a fresh root; everything is bounded and the stored keys are kept |
| TreeLookups.SameLookupsKeys | bplustree/src/bplustree.cpp:129-134 | two well-formed trees that answer every `search` alike store the same keys |
| TreeLookups.LookupsKept | bplustree/src/bplustree.cpp:100-134 | when every leaf of the new tree was a leaf of the old one with the same keys, lists and range, every `search` is unchanged |
| TreeLookups.LookupsAfterLeafSplit | bplustree/src/leafnode.cpp:45-53 | when one leaf is replaced by its halves with the ranges either side of the promoted key, every `search` is unchanged |
| TreeLookups.LeafSplitUnderLeaves | bplustree/src/bplustree.cpp:21-32 | after a leaf split into its parent, the halves hold the split leaf's contents with ranges either side of the promoted key, and every other leaf is unchanged |
| TreeLookups.LeafSplitAtRootLeaves | bplustree/src/bplustree.cpp:21-28 | after the root leaf splits under a fresh root, the halves hold its contents with ranges either side of the promoted key |
| TreeLookups.InternalSplitUnderLeaves | bplustree/src/bplustree.cpp:33-39 | splitting an internal node into its parent changes no leaf |
| TreeLookups.InternalSplitAtRootLeaves | bplustree/src/bplustree.cpp:40-44 | splitting the internal root under a fresh root changes no leaf |
| TreeLookups.LeafSplitUnderLookups | bplustree/src/bplustree.cpp:21-32 | splitting a leaf into its parent keeps every `search` result |
| TreeLookups.LeafSplitAtRootLookups | bplustree/src/bplustree.cpp:21-28 | splitting the root leaf under a fresh root keeps every `search` result |
| TreeLookups.InternalSplitUnderLookups | bplustree/src/bplustree.cpp:33-39 | splitting an internal node into its parent keeps every `search` result |
| TreeLookups.InternalSplitAtRootLookups | bplustree/src/bplustree.cpp:40-44 | splitting the internal root under a fresh root keeps every `search` result |
| BPlusTrees.BPlusTree.constructor | bplustree/src/bplustree.cpp:7-9 | the new tree is valid; its order is the argument; its root is an empty leaf linked to itself; it stores no keys |
| BPlusTrees.BPlusTree.GetOrder | bplustree/src/bplustree.cpp:11-13 | returns the order the tree was built with |
| BPlusTrees.BPlusTree.FindSearchPath | bplustree/src/bplustree.cpp:100-127 | appends the descent path from `node` to the given stack, ending at the leaf the descent reaches |
| BPlusTrees.BPlusTree.Search | bplustree/src/bplustree.cpp:129-134 | returns `getValues(key)` of the leaf the search reaches, which is a list exactly when the key is stored |
| BPlusTrees.BPlusTree.GetLeftLeaf | bplustree/src/bplustree.cpp:158-165 | following first children from the root reaches the first leaf of the chain |
| BPlusTrees.BPlusTree.Update | bplustree/src/bplustree.cpp:93-98 | the tree stays valid with the same keys; `key` reads back `vs` if it was stored and nothing otherwise; other keys are unchanged |
| BPlusTrees.BPlusTree.Insert | bplustree/src/bplustree.cpp:15-52 | the tree stays valid, with every node below `order`; the stored keys gain exactly `key`; every key reads `FindAfterInsert` of the old tree; a stored key's list gains `value`, and a key larger than every stored key reads back `[value]`, with other keys unchanged in both cases; a new root is fresh, with one key and two children, the old root and a fresh node |
| BPlusTrees.BPlusTree.InsertIntoLeaf | bplustree/src/bplustree.cpp:16-20 | the leaf the search reaches takes the key; the climb state holds from it; the stored keys gain exactly `key`; every key reads `FindAfterInsert` of the old tree |
| BPlusTrees.BPlusTree.SplitUpward | bplustree/src/bplustree.cpp:21-48 | from a full leaf, the cascade ends with a valid tree, the same stored keys and every `search` result unchanged; any root change is a fresh one-key root over the old root and a fresh node |
| BPlusTrees.BPlusTree.SplitRootLeafAndSettle | bplustree/src/bplustree.cpp:22-28 | a full root leaf splits under a fresh root holding exactly the promoted key over the old root and a fresh node; the tree is valid with the same keys and every `search` result unchanged |
| BPlusTrees.BPlusTree.SplitLeafAndClimb | bplustree/src/bplustree.cpp:22-46 | a full leaf below the root splits into its parent and the climb ends with a valid tree, the same keys and every `search` result unchanged |
| BPlusTrees.BPlusTree.ClimbInternals | bplustree/src/bplustree.cpp:33-46 | the climb over internal nodes ends with a valid tree, the same stored keys and every `search` result unchanged |
| BPlusTrees.BPlusTree.SplitInternals | bplustree/src/bplustree.cpp:33-39 | the loop keeps the climb state, the stored keys and every `search` result; it stops at a node that is not full, or at a full root |
| BPlusTrees.BPlusTree.SettleTop | bplustree/src/bplustree.cpp:40-46 | a full root splits under a fresh one-key root over the old root and a fresh node; either way the tree ends valid with the same keys and every `search` result unchanged |
| BPlusTrees.BPlusTree.SplitRootLeaf | bplustree/src/bplustree.cpp:22-28 | the fresh root holds exactly the promoted key over the old leaf and a fresh node; the climb state holds from it; the keys and every `search` result are kept |
| BPlusTrees.BPlusTree.SplitLeafIntoParent | bplustree/src/bplustree.cpp:22-32 | the parent taken off the path holds the promoted key; the climb state holds from it on a shorter path; the keys and every `search` result are kept |
| BPlusTrees.BPlusTree.SplitRootInternal | bplustree/src/bplustree.cpp:40-44 | the fresh root holds exactly the promoted key over the old root and a fresh node; the climb state holds from it; the keys and every `search` result are kept |
| BPlusTrees.BPlusTree.SplitInternalIntoParent | bplustree/src/bplustree.cpp:34-38 | the parent popped off the path holds the promoted key; the climb state holds from it on the path without it; the keys and every `search` result are kept |
| BPlusTrees.BPlusTree.SplitLeafUnder | bplustree/src/bplustree.cpp:23-32 | the heap after the leaf split and the parent insert is the view the step functions describe |
| BPlusTrees.BPlusTree.SplitLeafRoot | bplustree/src/bplustree.cpp:23-27 | the heap after the leaf split and the new root is the view the step functions describe |
| BPlusTrees.BPlusTree.SplitInternalUnder | bplustree/src/bplustree.cpp:34-38 | the heap after the internal split and the parent insert is the view the step functions describe |
| BPlusTrees.BPlusTree.SplitInternalRoot | bplustree/src/bplustree.cpp:34-43 | the heap after the internal split and the new root is the view the step functions describe |
| BPlusTrees.BPlusTree.SplitLeafInView | bplustree/src/bplustree.cpp:23 | the heap after `leaf->split` is the leaf-split view, the right leaf is fresh, and the returned key is the split's promoted key |
| BPlusTrees.BPlusTree.SplitInternalInView | bplustree/src/bplustree.cpp:34 | the heap after `internal->split` is the internal-split view, the right node is fresh, and the returned key is the split's promoted key |
| BPlusTrees.BPlusTree.InsertChildInView | bplustree/src/bplustree.cpp:32 | the heap after `parent->insert(keyToParent, right)` is the separator-insert view |
| BPlusTrees.BPlusTree.NewRoot | bplustree/src/bplustree.cpp:25-27 | the new root is fresh, holds exactly [keyToParent] over [left, right], and the heap is the new-root view |
| BPlusTrees.BPlusTree.InsertInView | bplustree/src/bplustree.cpp:20 | the heap after `leaf->insert` is the leaf-insert view |
| BPlusTrees.BPlusTree.UpdateInView | bplustree/src/bplustree.cpp:97 | the heap after `leaf->update` is the leaf-update view |

## Left out

- Deletion with redistribute and merge (`remove`): its helpers (`getSibling`, `redistribute`, `merge`, `hasExtraEntries`, `hasUnderflow`, `LeafNode::remove`) have no bodies in the repository, so it is not part of this model. The minimum-occupancy rule exists only for deletion and is not modelled either.
- `scan` and `scanFull`: the leaf-level `LeafNode::scan` and `scanFull` they call have no bodies.
- `insert(key, vector)`: it calls a leaf overload that has no body. Its cascade is the same text as `insert(key, value)`, which is modelled.
- `show`, `printTree` and `printNode`: console output only.
- `destroy`, the destructors, and the heap-allocated `keyToParent` (with its leak on the root paths): memory management has no counterpart under Dafny's garbage collection.
- The sharded, thread-pooled wrapper, the Bloom filters, the command-line programs and the benchmarks: concurrency and foreign libraries.
- The first revision under bplustree/ (node.cpp, bplustree.cpp and their headers): it is superseded and does not compile.
- Pointer aliasing of value lists: `getValues` returns a pointer into the leaf, and the node.cpp revision of `update` stores the caller's pointer. The model has value semantics, the copying revision.
- `getNumKeysStored`: its body is not in the repository. The model states the distinct-key count through `Keys(view)` instead.
- BPlusTrees.BPlusTree.Insert: states a new root's one key only as one key, not which key. The promoted key is stated by `SplitRootLeaf`, `SplitRootInternal` and `SplitRootLeafAndSettle`, but it is not passed up through the cascade loop.
- BPlusTrees.BPlusTree.SplitUpward: states a new root's one key only as one key, as for `Insert`; the same holds for `SplitLeafAndClimb`, `ClimbInternals` and `SettleTop`.
- BPlusTrees.BPlusTree.constructor: requires an order other than 1. With order 1, a one-key leaf splits into an empty left half, and the separator can equal the leaf's lower bound, so the routing invariant would not hold. An order of 0 or below never splits and is allowed.
- BPlusTrees.BPlusTree.Update: returns nothing, because the leaf `update` it returns is `void`.
- Integer width: keys and values are unbounded integers. The source's `int` is 32 bits, but no operation here does arithmetic on keys or values.

## Findings

| source | as written | input that shows it | evidently intended | confidence | as-written member | corrected member |
|---|---|---|---|---|---|---|
| bplustree/src/leafnode.cpp:38-41 | a new key is inserted at its sorted position, but its one-element value list is appended at the end of the value lists | into the leaf {2: [20]}, insert key 1 with value 10: key 1 then reads [20] and key 2 reads [10] | the new list goes into the new key's own slot, so every insert round-trips | not executed | LeafNodes.InsertMisalignmentExample | LeafNodes.InsertInSlotLookups |

The tree operations keep the leaf insert as written, so that their contracts
describe what the code does; `InsertInSlot` and its round-trip lemma stand
beside it as the intended behaviour.
