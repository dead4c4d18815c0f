/**
 What the comparison counter of BST.h measures, for any tree shape: bounds
 in terms of height and size, and how insert and erase relate to the search
 path that find walks.
 */
module Costs {
  import opened Trees
  import opened TreeOps

  /**
   find charges an odd count exactly when it finds the key: the matching
   node costs one comparison, every other node on the path two.
   */
  lemma {:induction false} SearchCostParity<V>(t: Tree<V>, k: int)
    ensures SearchCost(t, k) % 2 == 1 <==> Find(t, k).Some?
  {
    match t
    case Leaf =>
    case Node(l, key, _, r) =>
      if k < key {
        SearchCostParity(l, k);
      } else if key < k {
        SearchCostParity(r, k);
      }
  }

  /** find and insert charge at most two comparisons per level of the tree. */
  lemma {:induction false} SearchCostBound<V>(t: Tree<V>, k: int)
    ensures SearchCost(t, k) <= 2 * Height(t)
  {
    match t
    case Leaf =>
    case Node(l, key, _, r) =>
      if k < key {
        SearchCostBound(l, k);
      } else if key < k {
        SearchCostBound(r, k);
      }
  }

  /**
   insert puts the new key in the empty slot where the failed search ended:
   finding it afterwards costs that search plus the one matching comparison.
   */
  lemma {:induction false} InsertedKeyCost<V>(t: Tree<V>, k: int, v: V)
    requires Find(t, k).None?
    ensures Find(Insert(t, k, v), k) == Some(v)
    ensures SearchCost(Insert(t, k, v), k) == SearchCost(t, k) + 1
  {
    match t
    case Leaf =>
    case Node(l, key, _, r) =>
      if k < key {
        InsertedKeyCost(l, k, v);
      } else {
        InsertedKeyCost(r, k, v);
      }
  }

  /**
   insert changes neither the result nor the cost of finding a key that was
   already present: the new leaf is never on that key's search path.
   */
  lemma {:induction false} InsertKeepsFoundCost<V>(t: Tree<V>, k: int, v: V, k': int)
    requires Find(t, k').Some?
    ensures Find(Insert(t, k, v), k') == Find(t, k')
    ensures SearchCost(Insert(t, k, v), k') == SearchCost(t, k')
  {
    match t
    case Leaf =>
    case Node(l, key, _, r) =>
      if k != key && k' != key {
        if k < key && k' < key {
          InsertKeepsFoundCost(l, k, v, k');
        } else if key < k && key < k' {
          InsertKeepsFoundCost(r, k, v, k');
        }
      }
  }

  /**
   erase charges one comparison per node on a single downward path (the
   successor removal continues below the node it copies into).
   */
  lemma {:induction false} EraseCostBound<V>(t: Tree<V>, k: int)
    ensures EraseCost(t, k) <= Height(t)
  {
    match t
    case Leaf =>
    case Node(l, key, _, r) =>
      if k < key {
        EraseCostBound(l, k);
      } else if key < k {
        EraseCostBound(r, k);
      } else if l.Node? && r.Node? {
        EraseCostBound(r, MinNode(r).key);
      }
  }

  /**
   erase of an absent key walks the nodes find walks, charging one
   comparison at each where find charges two.
   */
  lemma {:induction false} EraseCostAbsent<V>(t: Tree<V>, k: int)
    requires Find(t, k).None?
    ensures 2 * EraseCost(t, k) == SearchCost(t, k)
  {
    match t
    case Leaf =>
    case Node(l, key, _, r) =>
      if k < key {
        EraseCostAbsent(l, k);
      } else {
        EraseCostAbsent(r, k);
      }
  }

  /** The subtree at which find stops: the node holding `k`, or an empty slot. */
  function FoundAt<V>(t: Tree<V>, k: int): (n: Tree<V>)
    ensures n.Node? ==> n.key == k && Find(t, k) == Some(n.val)
    ensures n.Leaf? ==> Find(t, k).None?
  {
    match t
    case Leaf => Leaf
    case Node(l, key, _, r) =>
      if k == key then t
      else if k < key then FoundAt(l, k)
      else FoundAt(r, k)
  }

  /** Number of nodes from the root down to the leftmost node. */
  function LeftDepth<V>(t: Tree<V>): nat
  {
    if t.Leaf? then 0 else 1 + LeftDepth(t.left)
  }

  /** Removing the least key of a search tree walks its left spine. */
  lemma {:induction false} EraseMinCost<V>(t: Tree<V>)
    requires t.Node? && IsBST(t)
    ensures EraseCost(t, MinNode(t).key) == LeftDepth(t)
  {
    if t.left.Node? {
      EraseMinCost(t.left);
      assert MinNode(t.left).key in Keys(t.left);
    }
  }

  /**
   erase of a present key: one comparison per node of find's path, and in
   the two-children case one more per node of the right child's left spine,
   which the successor removal walks.
   */
  lemma {:induction false} EraseCostPresent<V>(t: Tree<V>, k: int)
    requires IsBST(t) && Find(t, k).Some?
    ensures var n := FoundAt(t, k);
      2 * EraseCost(t, k) == SearchCost(t, k) + 1
        + if n.left.Node? && n.right.Node? then 2 * LeftDepth(n.right) else 0
  {
    match t
    case Leaf =>
    case Node(l, key, _, r) =>
      if k < key {
        EraseCostPresent(l, k);
      } else if key < k {
        EraseCostPresent(r, k);
      } else if l.Node? && r.Node? {
        EraseMinCost(r);
      }
  }

  /**
   rangeApply charges three comparisons per visited node, and every entry
   it reports is a visited node; it never visits more than the whole tree.
   */
  lemma {:induction false} RangeCostBounds<V>(t: Tree<V>, lo: int, hi: int)
    ensures 3 * |Range(t, lo, hi)| <= RangeCost(t, lo, hi) <= 3 * Size(t)
  {
    match t
    case Leaf =>
    case Node(l, key, _, r) =>
      RangeCostBounds(l, lo, hi);
      RangeCostBounds(r, lo, hi);
  }
}
