# Instrumented unbalanced binary search tree, in Dafny

This project models the generic ordered map `BST<K,V>` of `BST.h`. It is an
unbalanced binary search tree with five public operations:

- `insert` rejects duplicate keys and otherwise hangs a new leaf in the first empty slot.
- `find` returns the value stored under a key, or nothing.
- `erase` removes a key by the three structural cases.
- `rangeApply` is a pruned in-order traversal over `[lo, hi]`.
- `resetMetrics` zeroes the counter.

A public `comparisons` counter is bumped at fixed points of every traversal.
The tree never rebalances, so costs depend on the actual shape.

Layout:

- `tree.dfy` (module `Trees`): the node structure as a value, `Tree<V> = Leaf | Node(left, key, val, right)`.
  It also holds the abstraction `Elements(t): map<int, V>`, the ordering invariant `IsBST`, the in-order listing, size and height.
- `ops.dfy` (module `TreeOps`): the private recursive helpers as functions on trees.
  These are `Find`, `Insert`, `Erase`, `MinNode` and `Range`, next to the comparisons each charges (`SearchCost`, `EraseCost`, `RangeCost`).
  The module also proves what the helpers do to `Elements` and to `IsBST`.
  `Within` is an independent reference definition of range output: the in-order listing filtered to `[lo, hi]`.
- `bst.dfy` (module `Bst`): the class `BST<V>`, with the fields `root` and `comparisons`.
  Its recursive methods `InsertRec`, `FindRec`, `EraseRec` and `RangeRec` bump `comparisons` at the same points as the C++ code.
  Each is proved to return the tree function's result and to charge exactly that function's cost.
  The public methods state their effect on the abstract map and keep `Valid()`, which is `IsBST(root)`.
- `costs.dfy` (module `Costs`): what the counter measures on any shape.
  This covers parity and height bounds, where insert puts the new leaf, and how erase's cost splits into the search path plus the successor walk.
- `skewed.dfy` (module `Skewed`): strictly increasing insertions build a right spine.
  On that spine, costs are exact functions of a key's position.
  The module replays the id-index scenario of `tests/test_runner.cpp` (5, 14, 15 and 8 comparisons), both on the functions and through the class.

Keys are `int`, the key type the tests' id index uses. C++ `==` and `<` on
`int` agree, so `findRec` (equality, then `<`) and `eraseRec` (`<` twice)
dispatch identically.

Two consequences of the counter's placement are easy to miss:

- `eraseRec` charges the matching node as well, because `BST.h:114`
  increments before either `<` test. `EraseCost` charges it.
- Finding the largest of `n` ascending keys costs `2n - 1`: the match at
  `BST.h:98-100` costs one comparison (`FindOnSpine` proves `2i + 1` for
  position `i`). Only a key above all of them costs `2n`
  (`FindMissOnSpine`), which `tests/test_runner.cpp:83-84` checks.

## Model

| member | source | states |
|---|---|---|
| `Trees.InOrderAscending` | BST.h:12-16 | under the ordering invariant, the in-order listing strictly ascends by key |
| `Trees.InOrderEntries` | BST.h:12-16 | under the ordering invariant, the in-order listing holds exactly the map's entries, each key once |
| `TreeOps.Find` | BST.h:95-106 | findRec: equality first, then `<`; the stored value at the first node whose key equals `k`, `None` at an empty slot; a result is only ever returned for a key stored in the tree |
| `TreeOps.SearchCost` | BST.h:95-106 | comparisons findRec (and insertRec, BST.h:82-85) charge: two per node passed, one at the match, none at the empty slot; zero exactly on an empty tree, at most two per node |
| `TreeOps.Insert` | BST.h:77-90 | the rebuilt subtree: unchanged at a match, otherwise a new leaf in the first empty slot; its keys are the old keys plus `k` |
| `TreeOps.InsertSize` | BST.h:77-90 | insert adds exactly one node when the search misses and none when it matches |
| `TreeOps.Erase` | BST.h:111-142 | the new subtree root: descend by `<` both ways; at the match splice in the right child, the left child, or copy the successor up and erase it below; never adds keys or nodes |
| `TreeOps.EraseCost` | BST.h:111-142 | comparisons eraseRec charges: one per visited node (BST.h:114), plus the successor removal of BST.h:139; zero exactly on an empty tree, at most one per node |
| `TreeOps.Range` | BST.h:153-167 | the pairs rangeRec hands to `fn`, in call order: left when `lo < key`, the node when in `[lo, hi]`, right when `key < hi`; every reported key lies in `[lo, hi]` and in the tree |
| `TreeOps.RangeCost` | BST.h:153-167 | comparisons rangeRec charges: three per visited node (BST.h:156, 160, 164); a multiple of three, zero exactly on an empty tree |
| `TreeOps.FindCorrect` | BST.h:95-106 | on a search tree, findRec returns `Some(v)` iff `k |-> v` is in the map, and `None` iff `k` is absent |
| `TreeOps.InsertDuplicateUnchanged` | BST.h:82-84 | when the search meets the key, insert returns the tree unchanged in shape as well as contents |
| `TreeOps.InsertKeepsBST` | BST.h:77-90 | insert keeps left keys smaller and right keys larger at every node |
| `TreeOps.InsertAbsentElements` | BST.h:77-80 | inserting an absent key adds exactly `k |-> v` to the map |
| `TreeOps.InsertCorrect` | BST.h:32-37 | insert keeps the invariant; a present key leaves the tree unchanged; an absent key yields old map plus `k |-> v` |
| `TreeOps.MinNode` | BST.h:146-148 | minNode returns a node with no left child whose key is in the subtree |
| `TreeOps.MinNodeIsLeast` | BST.h:144-148 | on a search tree, minNode's key is the least key and its value is the map's value for it |
| `TreeOps.EraseAbsentUnchanged` | BST.h:111-118 | erasing a key the search does not find rebuilds the same tree |
| `TreeOps.EraseElements` | BST.h:111-142 | erase removes exactly `k` from the map; every other key keeps its value |
| `TreeOps.EraseSuccessorElements` | BST.h:135-139 | two-children case: copying the successor up and erasing it below yields the old map minus the erased key |
| `TreeOps.EraseKeepsBST` | BST.h:111-142 | all three erase cases keep the ordering invariant |
| `TreeOps.EraseCorrect` | BST.h:46-53 | erase keeps the invariant and yields the old map minus `k` |
| `TreeOps.WithinAscending` | BST.h:150-151 | filtering an ascending listing to `[lo, hi]` keeps it ascending |
| `TreeOps.WithinMembers` | BST.h:150-151 | the filtered listing keeps exactly the entries with `lo <= key <= hi` |
| `TreeOps.RangeIsFilteredInOrder` | BST.h:153-167 | on a search tree, the pruned traversal reports the same sequence as the full in-order traversal filtered to `[lo, hi]` |
| `TreeOps.RangeAscending` | BST.h:55-60 | rangeApply reports entries in strictly ascending key order |
| `TreeOps.RangeEntries` | BST.h:55-60 | every reported pair is a map entry with `lo <= key <= hi`, and every such entry is reported |
| `Bst.BST.constructor` | BST.h:23-26 | a new tree is empty, valid, and its counter is 0 |
| `Bst.BST.Insert` | BST.h:32-37 | returns true iff `k` was absent; contents become old plus `k |-> v`, or stay unchanged (shape too); invariant kept; counter grows by `SearchCost` |
| `Bst.BST.InsertRec` | BST.h:77-90 | returns `Insert(n, k, v)` and whether the search found no match; charges two per passed node and one at a match |
| `Bst.BST.Find` | BST.h:39-44 | returns the stored value or `None` per the map; the tree is untouched; counter grows by `SearchCost` |
| `Bst.BST.FindRec` | BST.h:95-106 | returns `Find(n, k)`, charging `SearchCost(n, k)` |
| `Bst.BST.Erase` | BST.h:46-53 | returns true iff `k` was present; contents become old minus `k`; invariant kept; counter grows by `EraseCost` |
| `Bst.BST.EraseRec` | BST.h:111-142 | returns `Erase(n, k)` and whether `k` was found, charging one per visited node plus the successor removal |
| `Bst.BST.RangeApply` | BST.h:55-60 | reports exactly the entries in `[lo, hi]`, strictly ascending; counter grows by `RangeCost` |
| `Bst.BST.RangeRec` | BST.h:150-167 | returns `Range(n, lo, hi)`, charging three per visited node |
| `Bst.BST.ResetMetrics` | BST.h:62-63 | sets the counter to 0 and leaves the tree unchanged |
| `Costs.SearchCostParity` | BST.h:98-101 | find's charge is odd exactly when the key is found: one for the match, two for every other node |
| `Costs.SearchCostBound` | BST.h:95-106 | find and insert charge at most twice the tree height |
| `Costs.InsertedKeyCost` | BST.h:77-80 | the new leaf sits in the empty slot where the failed search ended: finding it costs that search plus one |
| `Costs.InsertKeepsFoundCost` | BST.h:77-90 | insert changes neither the result nor the cost of finding any key already present |
| `Costs.EraseCostBound` | BST.h:111-142 | erase charges at most the tree height, one per node on a single downward path |
| `Costs.EraseCostAbsent` | BST.h:111-118 | for an absent key, erase visits find's path and charges half of find's cost |
| `Costs.EraseMinCost` | BST.h:136-139 | removing the least key of a search tree costs its left-spine length |
| `Costs.EraseCostPresent` | BST.h:111-142 | for a present key, twice erase's cost is find's cost plus one, plus twice the right child's left-spine length when the node has two children |
| `Costs.RangeCostBounds` | BST.h:153-167 | three comparisons per visited node: at least three per reported entry, at most three per node of the tree |
| `Skewed.InsertAll` | tests/test_runner.cpp:66 | the tree after inserting the entries one by one in order: it keeps the old keys and holds every inserted key |
| `Skewed.InsertAllSnoc` | tests/test_runner.cpp:66 | one more insert after a batch is the batch's tree with that entry inserted |
| `Skewed.InsertAscendingBuildsSpine` | tests/test_runner.cpp:56-66 | inserting strictly increasing keys builds the right spine of those keys |
| `Skewed.SpineIsBST` | tests/test_runner.cpp:56-66 | the spine of an ascending listing is a search tree whose in-order listing is that listing |
| `Skewed.FindOnSpine` | tests/test_runner.cpp:74-75 | on the spine, finding the key at position `i` returns its value and costs `2i + 1` |
| `Skewed.FindMissOnSpine` | tests/test_runner.cpp:83-84 | on the spine, an absent key above exactly `j` keys costs `2j + 2`, or `2n` when above all |
| `Skewed.EraseOnSpine` | BST.h:123-128 | erasing position `i` of the spine splices out that node, leaving the spine of the other keys, and costs `i + 1` |
| `Skewed.FindAfterEraseOnSpine` | tests/test_runner.cpp:119-123 | after erasing position `i` of the spine, looking that key up returns nothing and costs `2i + 2`, or `2i` when it was the last key |
| `Skewed.RangeCostOnSpine` | tests/test_runner.cpp:99-100 | on the spine, rangeApply visits the nodes up to the first key `>= hi`, three comparisons each |
| `Skewed.SeedBuildsSpine` | tests/test_runner.cpp:56-66 | the seven seeded ids ascend strictly, so seeding builds their spine |
| `Skewed.SeededFindCosts` | tests/test_runner.cpp:68-85 | find(1000789) returns Gonzalez at cost 5; find(9999999) returns nothing at cost 14 |
| `Skewed.SeedWithin` | tests/test_runner.cpp:90-98 | the seeded entries with ids in `[1000400, 1001000]` are 1000456, 1000789, 1000811 |
| `Skewed.SeededRange` | tests/test_runner.cpp:87-101 | rangeApply(1000400, 1001000) reports those three ids in order at cost 15 |
| `Skewed.SeededErase` | tests/test_runner.cpp:114-123 | 1000811 is present; after erasing it, finding it returns nothing at cost 8 |
| `Skewed.BuildIndex` | tests/test_runner.cpp:66 | the seeding loop inserts the entries one by one through the class and leaves a valid tree equal to `InsertAll(Leaf, s)` |
| `Skewed.MeasuredFind` | tests/test_runner.cpp:69-75 | reset, find, read counter: returns find's result and exactly its search cost |
| `Skewed.MeasuredRange` | tests/test_runner.cpp:88-100 | reset, rangeApply, read counter: returns the range and exactly its cost |
| `Skewed.SeededRun` | tests/test_runner.cpp:52-123 | through the class, the id-index scenario yields Gonzalez at 5, `None` at 14, the three range rows at 15, a successful erase, then a miss at 8 |

## Left out

- `Engine.h` is not part of this model. The dual-index record engine (`insertRecord`, `findById`, `rangeById`, `prefixByLast`, `deleteById`) and its cross-index consistency are therefore not modelled. So are the surname-prefix checks of `tests/test_runner.cpp:103-141`.
- `Record.h`: the payload is an arbitrary type parameter `V`. The scenario uses each record's last name as the payload. The floating-point `gpa` and the unused `deleted` flag are not modelled.
- Keys are `int` rather than an arbitrary type `K` with `<` and `==`. The tests' id index uses `int` keys; the string-keyed use belongs to the engine.
- `comparisons` is an unbounded integer. The C++ `int` counter's overflow is not modelled.
- `clear`, the destructor and the `delete n` calls in `eraseRec` are not modelled. They free memory and have no other observable effect; subtrees are values here.
- `find` returns the stored value as an `Option` rather than the address `V*`. Mutation through that address is not modelled.
- The visitor `fn` of `rangeApply` is replaced by the sequence of `(key, value)` pairs it is called with, in call order. `rangeRec` passes `fn` by value to each recursive call, so a visitor object that keeps state inside itself would see its copies diverge. That effect is not modelled: the sequence is what a visitor capturing by reference observes.
- Deep recursion on list-shaped trees (stack depth) is not modelled.
