# A verified model of a generic radix trie

This project models the core of a generic radix trie, a compressed prefix
tree. It is an associative container whose keys reduce to sequences of
4-bit nibbles. It models three parts:

- **the `Trie` container** (`src/trie.rs`): a root node and a cached entry count;
- **the pre-order entry iterator** (`src/iter.rs`) and its `Keys` and `Values` projections;
- **building a trie from pairs** (`FromIterator`).

The model is written in Dafny, over these entities:

- **Nibbles and encoding.** A nibble is an `int` in `0..15` (module `Nibbles`), and a path is a `seq<Nibble>`.
  - The key encoding is an abstract function `encode: K -> seq<Nibble>`, fixed when a trie is created.
  - A Dafny function is total and deterministic, so `encode` is too.
  - It is *not* assumed to be injective: two keys may share an encoding.
- **Nodes** (module `TrieNodes`) are a datatype `Node(fragment, kv, children, childCount)`.
  - `kv` is the optional owning key/value pair.
  - `children` plays the role of the 16-slot array.
  - `childCount` is the cached number of occupied slots.
  - The tree invariants are numbered I1 to I6 in the header of `trie_node.dfy`:
    - I1: a child in slot `i` has a fragment starting with `i`;
    - I2: sibling fragments start with different nibbles;
    - I3: a non-root node without an entry has at least two children;
    - I4: the cached child count is right;
    - I5: the cached length is right;
    - I6: each stored key encodes to its node's path.
- **What a node stores.** A node's denotation is `Lookup(n, p)`: the pair stored at path `p`, where a path concatenates fragments from `n` down.
  - Every node operation that rebuilds the tree is specified by a pointwise contract against that denotation: `forall p :: Lookup(result, p) == …`.
  - `Entries(n, prefix)` (module `NodeEntries`) lists the stored `(path, pair)` entries in pre-order.
- **Node operations.** The node-level source file is not part of this model; the node operations the container calls are written as the descend and split algorithm:
  - insert (`NodeInsert`), which has four cases: exact hit, descent, fresh leaf, and split;
  - remove and compaction (`NodeRemove`);
  - the ancestor search and subtree views (`NodeSearch`);
  - the recursive integrity check (`NodeEntries`).

  Module `NodeLaws` proves that removing a key right after inserting it at an empty path gives back the original tree, node for node.
- **The container** (module `Tries`) is a `class Trie` with a fixed `encode`, a mutable `length`, a mutable root `node`, and a ghost map `Contents` from paths to the stored pairs.
  - `Valid()` ties them together:
    - the root has an empty fragment;
    - the tree is well formed;
    - the tree stores exactly `Contents`;
    - every key sits at its own encoding;
    - `length == |Contents|`.
  - `insert`, `remove`, `get_mut`, `value_mut` and `map_with_default` are methods that modify the object. The read-only operations are functions.
- **The iterator** (module `Iters`) is a `class Iter` with:
  - the root;
  - a `rootVisited` flag;
  - a stack of child cursors. A cursor `ChildCursor(node, slot)` stands for a `child_iter` positioned at a slot.

  `Next` is the push/pop loop of the source. It is proved against `Remaining()`, the pairs still to be yielded. `Items(root)` is the pre-order list of the whole walk, and lemmas show it lists exactly the trie's entries, each key once, ancestors first.

One operation departs from the code on purpose. `subtrie` (src/trie.rs:49-54) builds its view with the prefix that reaches the node. `get_ancestor` (src/trie.rs:72-77) does not: it uses the whole encoding of the queried key, even when the ancestor sits higher up.
- The container member `Tries.Trie.GetAncestor` is the corrected form: its view carries the ancestor's own path.
- The code as written is modelled by `Tries.AncestorViewAsWritten`, and `Tries.AncestorPrefixAsWritten` exhibits the difference on a concrete tree.

See "## Findings".

How the integrity check counts is a modelling choice. The recursive node-level check is not part of this model. `CheckIntegrityRecursive` returns a flag together with the number of entries in the subtree, because `check_integrity` (src/trie.rs:121-124) compares the second half of that pair with `length`.

## Model

| member | source | states |
|---|---|---|
| TrieNodes.EmptySlots | src/trie.rs:5-10 | a fresh node has 16 slots, all empty |
| TrieNodes.NewNode | src/trie.rs:8 | `TrieNode::new` is an empty root: no entry, no children, an empty fragment, and the root's invariants |
| TrieNodes.Get | src/trie.rs:13-16 | `TrieNode::get`, also called at src/trie.rs:51: the node a path reaches has 16 slots all the way down; `GetEndsPath`, `GetConcat` and `Lookup` give its meaning |
| TrieNodes.GetEndsPath | src/trie.rs:49-54 | a path reaches a node only by running through the start node's fragment, and it ends with the reached node's own fragment |
| Nibbles.MatchCount | src/trie.rs:25-32 | `match_count`, used by insertion: a common prefix of both sequences that is as long as possible (the next nibbles differ, or one sequence ends) |
| TrieNodes.EmptyLookup | src/trie.rs:5-10 | a node with no entry and no children stores nothing at any path |
| TrieNodes.ValueChecked | src/trie.rs:13-16 | a value comes back only when the node's owning key equals the queried key (not merely its encoding), and it is the stored value |
| TrieNodes.ValueOf | src/trie.rs:82-84 | the value of an entry, present exactly when the entry is |
| TrieNodes.LeafLookup | src/trie.rs:25-32 | a fresh leaf stores its pair at its own fragment and nothing anywhere else |
| NodeInsert.Insert | src/trie.rs:25-32 | the tree stays well formed; the pair becomes the entry at `q`; every other path keeps its entry; the result is the value previously stored at `q`, whoever owned it |
| NodeInsert.Split | src/trie.rs:25-32 | the intermediate node of a split is keyed by the common prefix of the fragment and `q`; it holds the new pair itself only when `q` ends there; `SplitCorrect` gives the rest |
| NodeInsert.SplitCorrect | src/trie.rs:25-32 | where `q` leaves a fragment part-way, nothing is stored at `q`, and the split node is well formed, keeps the first nibble and stores the old entries plus exactly the new pair |
| NodeRemove.Remove | src/trie.rs:35-41 | a value comes back iff the entry at `q` is owned by `key`; then exactly that entry is gone and everything else stays; otherwise the tree is returned unchanged; the result is well formed or empty |
| NodeRemove.Reattach | src/trie.rs:35-41 | the rebuilt child goes back into its slot, or the slot is vacated when the child came back empty; no other slot, the fragment or the entry change; with `ReattachCorrect`, the node loses exactly the removed entry |
| NodeRemove.ReattachCorrect | src/trie.rs:35-41 | after reattaching a child that lost the entry at the rest of `q`, the node is structured and stores everything it did except the entry at `q` |
| NodeRemove.Compact | src/trie.rs:35-41 | merging a non-root node that has no entry and one child into that child keeps every entry and restores the two-children rule (I3) |
| NodeLaws.InsertRemove | src/qc_test.rs:85-94 | after inserting at an empty path, removing the same key returns the inserted value and the original tree, node for node |
| NodeSearch.GetAncestor | src/trie.rs:72-74 | the deepest prefix of `q` that reaches an entry: the found node holds an entry and is reached by that prefix; no longer prefix of `q` reaches an entry; no result means no prefix does |
| NodeSearch.GetConcat | src/trie.rs:49-54 | the node reached by `q` sees, behind its fragment, exactly what the tree stores behind `q` |
| NodeSearch.SetValue | src/trie.rs:19-22 | writing through a found entry changes its value, keeps its owning key, and leaves every other path alone |
| NodeEntries.EntriesSound | src/trie.rs:121-124 | every listed entry is stored at its path |
| NodeEntries.EntriesComplete | src/trie.rs:121-124 | every stored entry is listed, with its full path |
| NodeEntries.EntriesDistinct | src/trie.rs:121-124 | no path is listed twice |
| NodeEntries.EntriesAncestorsFirst | src/iter.rs:120-126 | an entry whose path is a proper prefix of another's is listed first |
| NodeEntries.CheckIntegrityRecursive | src/trie.rs:121-124 | the flag holds iff the subtree meets I1 to I4 and every key encodes to its node's path (I6); the count is the number of entries |
| Tries.Trie.constructor | src/trie.rs:5-10 | the new trie is valid and empty, with length 0, and passes its integrity check |
| Tries.Trie.Get | src/trie.rs:13-16 | a value comes back iff an entry at `key`'s encoding is owned by `key` itself, and it is that entry's value |
| Tries.Trie.GetMut | src/trie.rs:19-22 | when `key` owns a value, the edit replaces it in place; otherwise nothing changes; the length never changes |
| Tries.Trie.Insert | src/trie.rs:25-32 | returns the previous value at the encoding or none; the map gets the new pair; the length grows by one exactly when none came back; `get(key)` then returns the new value; the integrity check holds |
| Tries.Trie.Remove | src/trie.rs:35-41 | returns what `get(key)` returned; on a hit the entry is gone and the length drops by one; on a miss nothing changes; `get(key)` is then none; the integrity check holds |
| Tries.Trie.ValueMut | src/trie.rs:44-46 | the edit applies to the root's entry when there is one; nothing else changes |
| Tries.Trie.Subtrie | src/trie.rs:49-54 | a view exists exactly when the key's encoding reaches a node, with or without an entry there; the view's prefix is the key's encoding, and it reaches its node from the root; behind its fragment, the view sees exactly what the trie stores behind the key; so no view means no entry at the encoding |
| Tries.Trie.SubtrieMut | src/trie.rs:57-63 | a writable view exists exactly when `subtrie` gives one; it has the same prefix and holds the owning trie |
| Tries.Trie.GetAncestor | src/trie.rs:65-77 | (corrected) the view's prefix is a prefix of the key's encoding, leads to its node and holds an entry; no longer prefix holds one; no view means no prefix does |
| Tries.Trie.GetAncestorValue | src/trie.rs:82-84 | present exactly when `get_ancestor` finds a view, and then it is the value of that view's entry |
| Tries.Trie.MapWithDefault | src/trie.rs:108-116 | if `get(key)` has a value, `f` is applied to it in place and the length is unchanged; otherwise it acts like `insert(key, default)`; either way `get(key)` then returns the new value and the integrity check holds |
| Tries.Trie.CheckIntegrity | src/trie.rs:121-124 | true iff the tree meets I1 to I4 and I6, and the number of entries equals `length` |
| Tries.Trie.ValidIntegrity | src/qc_test.rs:83-96 | every valid trie passes the integrity check, so it holds after any run of inserts and removes |
| Tries.Trie.IntegrityValid | src/trie.rs:121-124 | conversely, a tree that passes the check meets every invariant of a valid trie |
| Tries.AncestorViewAsWritten | src/trie.rs:72-77 | (as written) a view exists exactly when the deepest-ancestor search finds a node, and its node is that deepest ancestor, which holds an entry; only the prefix differs from the corrected form, since it is the whole queried encoding |
| Tries.AncestorPrefixAsWritten | src/trie.rs:72-77 | on a root with one entry at `[1]` queried with `[1, 2]`, the written view claims prefix `[1, 2]`, which reaches nothing, while the ancestor's path is `[1]` |
| Iters.NextChild | src/iter.rs:75-81 | a cursor yields the next occupied slot at or after its position, having skipped only empty slots; none means every remaining slot is empty |
| Iters.ChildIter | src/iter.rs:75-81 | `child_iter`: a valid cursor over the 16 slots of a node; `ChildIterYields` and `NextChildYieldsChildren` give what it yields |
| Iters.ChildIterYields | src/iter.rs:75-81 | a node's cursor yields a node exactly when that node sits in one of its slots |
| Iters.NextChildYieldsChildren | src/iter.rs:75-81 | repeated advancing yields exactly the non-empty slots, in ascending slot order |
| Iters.ChildrenCount | src/iter.rs:75-81 | the number of children yielded is the number of occupied slots |
| Iters.KvAsPair | src/iter.rs:84-86 | a pair exists exactly when the node has an entry, and it is that entry's key and value |
| Iters.Iter.constructor | src/iter.rs:20-26 | nothing visited, an empty stack, the whole walk still to come |
| Iters.Iter.Next | src/iter.rs:97-130 | yields the first pair still to come and drops it; when none is left it yields none, and keeps doing so; the root is visited once; the loop terminates, because each push lowers the number of nodes still to reach, and each pop keeps that number and shortens the stack |
| Iters.RootFrame | src/iter.rs:101-107 | visiting the root yields its own pair, and leaves the rest of the walk in the frame over its slots |
| Iters.PushFrame | src/iter.rs:121-126 | a pushed child yields its own pair before its descendants', followed by the rest as before, with fewer nodes left to reach |
| Iters.PopFrame | src/iter.rs:127 | popping an exhausted frame loses no pair |
| Iters.Keys.constructor | src/iter.rs:36-41 | the keys still to come are the first components of the iterator's pairs |
| Iters.Keys.Next | src/iter.rs:46-48 | yields the key of the iterator's next pair, in the same order, and none at the end |
| Iters.Values.constructor | src/iter.rs:58-63 | the values still to come are the second components of the iterator's pairs |
| Iters.Values.Next | src/iter.rs:68-70 | yields the value of the iterator's next pair, in the same order, and none at the end |
| Iters.ItemsAreEntries | src/iter.rs:94-131 | the walk's pairs are those of the stored entries in pre-order, a node's own before its slots', slots in order |
| Iters.ItemsCover | src/qc_test.rs:141-149 | the walk over a valid trie yields a pair iff `get` returns it, each key once, `length` pairs in all |
| Iters.ItemsPreOrder | src/iter.rs:120-126 | a pair whose key's encoding is a proper prefix of another's is yielded earlier |
| Iters.BuiltLastWriteWins | src/iter.rs:133-141 | after inserting pairs in order, a path holds an entry iff some pair encodes to it, and the entry is the last such pair |
| Iters.FromIter | src/iter.rs:133-141 | a fresh valid trie whose entries are those left by inserting the pairs left to right into an empty trie |
| Iters.FromIterItems | src/qc_test.rs:151-170 | a trie built from pairs with distinct encodings yields those pairs as a multiset; its keys and values match those of the pairs as multisets |

## Left out

- `length` is a `nat`: the model does not overflow `usize`. No trie can hold more than `usize::MAX` entries anyway.
- Borrow-returning operations become edits:
  - `get_mut` and `value_mut` are modelled by the edit a caller makes through the returned reference (`GetMut(key, edit)`, `ValueMut(edit)`);
  - `map_with_default`'s `F: Fn(&mut V)` is an abstract `V -> V`.
- Lifetimes and aliasing. `SubTrieMut` holds the owning `Trie` instead of a `&mut usize` to its length. `new_subtrie` and `new_subtrie_mut` (src/trie.rs:128-145) are the constructors of the `SubTrie` and `SubTrieMut` datatypes.
- The packed `NibbleVec` representation and the concrete byte-to-nibble encoding are not part of this model. Paths are `seq<Nibble>` and `encode` is abstract.
- The node-level source file is not part of this model. Node behaviour is the descend and split algorithm needed for the container's contracts, specified against the node's denotation. The `isRoot` parameter says "this node is the trie's root". In `NodeInsert.Insert` and `NodeSearch.SetValue` it is ghost, because those operations act alike on every node. In `NodeRemove.Remove`, `NodeRemove.Compact` and `NodeEntries.CheckIntegrityRecursive` it is an ordinary parameter: it decides whether a node may be merged into its child, and whether the two-children rule (I3) is checked.
- The commented-out `get_raw_ancestor` and `get_descendant` stubs (src/trie.rs:86-103) have no behaviour to model.
- `src/qc_test.rs` is a QuickCheck harness. It is used only as the source of the stated properties. Its random key generator, hash sets and hash maps are not modelled.
- The iterator is modelled over the node datatype. `src/iter.rs` treats `Trie` itself as the node, which is an older layout than `src/trie.rs`.
  - `slice::Iter`, `FilterMap` and `Map` (src/iter.rs:7-10, 31, 53) become a cursor with a slot index, and projections of the iterator's `Remaining()` sequence.
  - The iterator yields owned pairs rather than references.
- Iters.FromIterItems: requires the pairs' keys to have distinct encodings, as the key sets built by `length_trie` in the tests do. With repeated encodings only the last pair survives, which `BuiltLastWriteWins` states.
- Iters.ItemsCover: stated about the walk's full list `Items(t.node)`. `Iter.Next` is proved to yield that list one pair per call. The sum of the two is not restated as a loop that drains an iterator.

## Findings

| source | as written | input that shows it | evidently intended | confidence | as-written member | corrected member |
|---|---|---|---|---|---|---|
| src/trie.rs:72-77 | `get_ancestor` builds its view with `new_subtrie(key_fragments, node)`: the prefix is the whole queried encoding | a root whose only entry is at path `[1]`, queried with `[1, 2]`: the view's prefix `[1, 2]` leads nowhere in the tree, while the ancestor's own path is `[1]` | the view's prefix is the ancestor's path, the prefix of the encoding that reaches it, as for `subtrie` | high, not executed | Tries.AncestorPrefixAsWritten | Tries.Trie.GetAncestor |
