/**
 The class `BST<K,V>` of BST.h with integer keys: a `root` field holding the
 tree and a public `comparisons` counter that every traversal bumps at the
 same points as the C++ code. The recursive private helpers are methods that
 take a subtree and return the rebuilt one, the way insertRec writes through
 its `Node *&` and eraseRec hands back the new subtree root; each is proved
 to compute the tree function of TreeOps and to charge its cost function.
 */
module Bst {
  import opened Trees
  import TreeOps

  class BST<V> {
    var root: Tree<V>
    var comparisons: int

    /** The ordering invariant every public operation keeps. */
    ghost predicate Valid()
      reads this`root
    {
      IsBST(root)
    }

    /** The key-to-value map the tree stands for. */
    ghost function Contents(): map<int, V>
      reads this`root
    {
      Elements(root)
    }

    constructor ()
      ensures Valid() && root == Leaf && Contents() == map[] && comparisons == 0
    {
      root := Leaf;
      comparisons := 0;
    }

    /**
     insert: false and nothing changed when `k` is already present;
     otherwise true and `k |-> v` is added as a new leaf.
     */
    method Insert(k: int, v: V) returns (ok: bool)
      requires Valid()
      modifies this
      ensures Valid()
      ensures ok <==> k !in old(Contents())
      ensures Contents() == if ok then old(Contents())[k := v] else old(Contents())
      ensures !ok ==> root == old(root)
      ensures root == TreeOps.Insert(old(root), k, v)
      ensures comparisons == old(comparisons) + TreeOps.SearchCost(old(root), k)
    {
      TreeOps.InsertCorrect(root, k, v);
      TreeOps.FindCorrect(root, k);
      root, ok := InsertRec(root, k, v);
    }

    method InsertRec(n: Tree<V>, k: int, v: V) returns (n': Tree<V>, ok: bool)
      modifies this`comparisons
      ensures n' == TreeOps.Insert(n, k, v)
      ensures ok == TreeOps.Find(n, k).None?
      ensures comparisons == old(comparisons) + TreeOps.SearchCost(n, k)
      decreases n
    {
      if n.Leaf? {
        return Node(Leaf, k, v, Leaf), true;
      }
      comparisons := comparisons + 1;
      if k == n.key {
        return n, false;
      }
      comparisons := comparisons + 1;
      if k < n.key {
        var l;
        l, ok := InsertRec(n.left, k, v);
        n' := n.(left := l);
      } else {
        var r;
        r, ok := InsertRec(n.right, k, v);
        n' := n.(right := r);
      }
    }

    /** find: the value stored under `k`, or nothing; the tree is untouched. */
    method Find(k: int) returns (r: Option<V>)
      requires Valid()
      modifies this`comparisons
      ensures r == if k in Contents() then Some(Contents()[k]) else None
      ensures r == TreeOps.Find(root, k)
      ensures comparisons == old(comparisons) + TreeOps.SearchCost(root, k)
    {
      TreeOps.FindCorrect(root, k);
      r := FindRec(root, k);
    }

    method FindRec(n: Tree<V>, k: int) returns (r: Option<V>)
      modifies this`comparisons
      ensures r == TreeOps.Find(n, k)
      ensures comparisons == old(comparisons) + TreeOps.SearchCost(n, k)
      decreases n
    {
      if n.Leaf? {
        return None;
      }
      comparisons := comparisons + 1;
      if k == n.key {
        return Some(n.val);
      }
      comparisons := comparisons + 1;
      if k < n.key {
        r := FindRec(n.left, k);
      } else {
        r := FindRec(n.right, k);
      }
    }

    /**
     erase: true exactly when `k` was present; afterwards `k` is absent and
     every other key keeps its value.
     */
    method Erase(k: int) returns (erased: bool)
      requires Valid()
      modifies this
      ensures Valid()
      ensures erased <==> k in old(Contents())
      ensures Contents() == old(Contents()) - {k}
      ensures root == TreeOps.Erase(old(root), k)
      ensures comparisons == old(comparisons) + TreeOps.EraseCost(old(root), k)
    {
      TreeOps.EraseCorrect(root, k);
      TreeOps.FindCorrect(root, k);
      root, erased := EraseRec(root, k);
    }

    method EraseRec(n: Tree<V>, k: int) returns (n': Tree<V>, erased: bool)
      modifies this`comparisons
      ensures n' == TreeOps.Erase(n, k)
      ensures erased == TreeOps.Find(n, k).Some?
      ensures comparisons == old(comparisons) + TreeOps.EraseCost(n, k)
      decreases n
    {
      if n.Leaf? {
        return Leaf, false;
      }
      comparisons := comparisons + 1;
      if k < n.key {
        var l;
        l, erased := EraseRec(n.left, k);
        n' := n.(left := l);
      } else if n.key < k {
        var r;
        r, erased := EraseRec(n.right, k);
        n' := n.(right := r);
      } else {
        erased := true;
        if n.left.Leaf? {
          return n.right, erased;
        } else if n.right.Leaf? {
          return n.left, erased;
        }
        var succ := TreeOps.MinNode(n.right);
        var r, _ := EraseRec(n.right, succ.key);
        n' := Node(n.left, succ.key, succ.val, r);
      }
    }

    /**
     rangeApply: the (key, value) pairs the visitor is called with, which are
     exactly the entries with lo <= key <= hi, in strictly ascending order.
     */
    method RangeApply(lo: int, hi: int) returns (visited: seq<(int, V)>)
      requires Valid()
      modifies this`comparisons
      ensures StrictlyAscending(visited)
      ensures forall i :: 0 <= i < |visited| ==>
        var (k, v) := visited[i];
        k in Contents() && Contents()[k] == v && lo <= k <= hi
      ensures forall k :: k in Contents() && lo <= k <= hi ==> (k, Contents()[k]) in visited
      ensures visited == TreeOps.Range(root, lo, hi)
      ensures comparisons == old(comparisons) + TreeOps.RangeCost(root, lo, hi)
    {
      TreeOps.RangeAscending(root, lo, hi);
      TreeOps.RangeEntries(root, lo, hi);
      visited := RangeRec(root, lo, hi);
    }

    method RangeRec(n: Tree<V>, lo: int, hi: int) returns (visited: seq<(int, V)>)
      modifies this`comparisons
      ensures visited == TreeOps.Range(n, lo, hi)
      ensures comparisons == old(comparisons) + TreeOps.RangeCost(n, lo, hi)
      decreases n
    {
      visited := [];
      if n.Leaf? {
        return;
      }
      comparisons := comparisons + 1;
      if lo < n.key {
        visited := RangeRec(n.left, lo, hi);
      }
      comparisons := comparisons + 1;
      if !(n.key < lo) && !(hi < n.key) {
        visited := visited + [(n.key, n.val)];
      }
      comparisons := comparisons + 1;
      if n.key < hi {
        var right := RangeRec(n.right, lo, hi);
        visited := visited + right;
      }
    }

    /** resetMetrics: the counter goes back to zero, the tree is untouched. */
    method ResetMetrics()
      modifies this`comparisons
      ensures comparisons == 0
      ensures root == old(root)
    {
      comparisons := 0;
    }
  }
}
