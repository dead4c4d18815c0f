/**
 The recursive helpers of BST.h (findRec, insertRec, eraseRec, minNode,
 rangeRec) as functions on tree values, together with the number of key
 comparisons each charges to the tree's counter, and the lemmas that relate
 them to the abstract map `Elements`.
 */
module TreeOps {
  import opened Trees

  // ---------------------------------------------------------------- find

  /** findRec: test equality first, then branch on `<`. */
  function Find<V>(t: Tree<V>, k: int): (r: Option<V>)
    ensures r.Some? ==> k in Keys(t)
  {
    match t
    case Leaf => None
    case Node(l, key, v, r) =>
      if k == key then Some(v)
      else if k < key then Find(l, k)
      else Find(r, k)
  }

  /**
   Comparisons charged by findRec and by insertRec, which descend alike:
   two for every node passed, one for the node that matches, none at the
   empty slot.
   */
  function SearchCost<V>(t: Tree<V>, k: int): (c: nat)
    ensures c == 0 <==> t.Leaf?
    ensures c <= 2 * Size(t)
  {
    match t
    case Leaf => 0
    case Node(l, key, _, r) =>
      if k == key then 1
      else if k < key then 2 + SearchCost(l, k)
      else 2 + SearchCost(r, k)
  }

  /** On a search tree, findRec returns exactly the map's entry for `k`. */
  lemma {:induction false} FindCorrect<V>(t: Tree<V>, k: int)
    requires IsBST(t)
    ensures Find(t, k) == if k in Elements(t) then Some(Elements(t)[k]) else None
  {
    match t
    case Leaf =>
    case Node(l, key, v, r) =>
      ElementsOfNode(t);
      if k < key {
        FindCorrect(l, k);
        assert k !in Keys(r);
      } else if key < k {
        FindCorrect(r, k);
        assert k !in Keys(l);
      }
  }

  // -------------------------------------------------------------- insert

  /**
   insertRec: a duplicate key found on the search path leaves the subtree as
   it was; otherwise a new leaf fills the first empty slot.
   */
  function Insert<V>(t: Tree<V>, k: int, v: V): (r: Tree<V>)
    ensures Keys(r) == Keys(t) + {k}
  {
    match t
    case Leaf => Node(Leaf, k, v, Leaf)
    case Node(l, key, w, r) =>
      if k == key then t
      else if k < key then Node(Insert(l, k, v), key, w, r)
      else Node(l, key, w, Insert(r, k, v))
  }

  /** A rejected insertion changes neither contents nor shape. */
  lemma {:induction false} InsertDuplicateUnchanged<V>(t: Tree<V>, k: int, v: V)
    requires Find(t, k).Some?
    ensures Insert(t, k, v) == t
  {
    match t
    case Leaf =>
    case Node(l, key, _, r) =>
      if k < key {
        InsertDuplicateUnchanged(l, k, v);
      } else if key < k {
        InsertDuplicateUnchanged(r, k, v);
      }
  }

  /** insert adds a node exactly when the search ends in an empty slot. */
  lemma {:induction false} InsertSize<V>(t: Tree<V>, k: int, v: V)
    ensures Size(Insert(t, k, v)) == Size(t) + if Find(t, k).Some? then 0 else 1
  {
    match t
    case Leaf =>
    case Node(l, key, _, r) =>
      if k < key {
        InsertSize(l, k, v);
      } else if key < k {
        InsertSize(r, k, v);
      }
  }

  /** insert keeps the ordering invariant. */
  lemma {:induction false} InsertKeepsBST<V>(t: Tree<V>, k: int, v: V)
    requires IsBST(t)
    ensures IsBST(Insert(t, k, v))
  {
    match t
    case Leaf =>
    case Node(l, key, w, r) =>
      if k < key {
        InsertKeepsBST(l, k, v);
      } else if key < k {
        InsertKeepsBST(r, k, v);
      }
  }

  /**
   insert rejects a key already present and leaves the tree as it was;
   otherwise the new contents are the old ones plus `k |-> v`.
   */
  lemma {:induction false} InsertCorrect<V>(t: Tree<V>, k: int, v: V)
    requires IsBST(t)
    ensures IsBST(Insert(t, k, v))
    ensures k in Elements(t) ==> Insert(t, k, v) == t
    ensures k !in Elements(t) ==> Elements(Insert(t, k, v)) == Elements(t)[k := v]
  {
    InsertKeepsBST(t, k, v);
    FindCorrect(t, k);
    if k in Elements(t) {
      InsertDuplicateUnchanged(t, k, v);
    } else {
      InsertAbsentElements(t, k, v);
    }
  }

  lemma {:induction false} InsertAbsentElements<V>(t: Tree<V>, k: int, v: V)
    requires k !in Keys(t)
    ensures Elements(Insert(t, k, v)) == Elements(t)[k := v]
  {
    match t
    case Leaf =>
    case Node(l, key, w, r) =>
      UpdateBelowNode(Elements(l), Elements(r), key, w, k, v);
      if k < key {
        InsertAbsentElements(l, k, v);
      } else {
        InsertAbsentElements(r, k, v);
      }
  }

  // --------------------------------------------------------------- erase

  /** minNode: follow left children to the leftmost node. */
  function MinNode<V>(t: Tree<V>): (m: Tree<V>)
    requires t.Node?
    ensures m.Node? && m.left.Leaf?
    ensures m.key in Keys(t)
  {
    if t.left.Leaf? then t else MinNode(t.left)
  }

  /** On a search tree the leftmost node holds the least key and its own value. */
  lemma {:induction false} MinNodeIsLeast<V>(t: Tree<V>)
    requires t.Node? && IsBST(t)
    ensures forall x :: x in Keys(t) ==> MinNode(t).key <= x
    ensures Elements(t)[MinNode(t).key] == MinNode(t).val
  {
    if t.left.Node? {
      MinNodeIsLeast(t.left);
      ElementsOfNode(t);
    }
  }

  /**
   eraseRec: descend with two `<` tests; at the key, splice in the right
   child when there is no left one, the left child when there is no right
   one, and otherwise copy the in-order successor up and erase it from the
   right subtree.
   */
  function Erase<V>(t: Tree<V>, k: int): (r: Tree<V>)
    ensures Keys(r) <= Keys(t)
    ensures Size(r) <= Size(t)
  {
    match t
    case Leaf => Leaf
    case Node(l, key, w, r) =>
      if k < key then Node(Erase(l, k), key, w, r)
      else if key < k then Node(l, key, w, Erase(r, k))
      else if l.Leaf? then r
      else if r.Leaf? then l
      else
        var succ := MinNode(r);
        Node(l, succ.key, succ.val, Erase(r, succ.key))
  }

  /**
   Comparisons charged by eraseRec: one per node visited, plus, in the
   two-children case, those of removing the successor from the right subtree.
   */
  function EraseCost<V>(t: Tree<V>, k: int): (c: nat)
    ensures c == 0 <==> t.Leaf?
    ensures c <= Size(t)
  {
    match t
    case Leaf => 0
    case Node(l, key, _, r) =>
      if k < key then 1 + EraseCost(l, k)
      else if key < k then 1 + EraseCost(r, k)
      else if l.Leaf? || r.Leaf? then 1
      else 1 + EraseCost(r, MinNode(r).key)
  }

  /** Erasing a key that the search does not find rebuilds the same tree. */
  lemma {:induction false} EraseAbsentUnchanged<V>(t: Tree<V>, k: int)
    requires Find(t, k).None?
    ensures Erase(t, k) == t
  {
    match t
    case Leaf =>
    case Node(l, key, _, r) =>
      if k < key {
        EraseAbsentUnchanged(l, k);
      } else if key < k {
        EraseAbsentUnchanged(r, k);
      }
  }

  /** erase removes `k` and every other key keeps its value. */
  lemma {:induction false} EraseElements<V>(t: Tree<V>, k: int)
    requires IsBST(t)
    ensures Elements(Erase(t, k)) == Elements(t) - {k}
    decreases t, 1
  {
    match t
    case Leaf =>
    case Node(l, key, w, r) =>
      if k < key {
        EraseLeftElements(t, k);
      } else if key < k {
        EraseRightElements(t, k);
      } else if l.Leaf? || r.Leaf? {
        assert Elements(Erase(t, k)) == Elements(t) - {k} by {
          var L, R := Elements(l), Elements(r);
          assert k !in Keys(l) && k !in Keys(r);
          assert Elements(t) - {k} == L + R;
        }
      } else {
        EraseSuccessorElements(t);
      }
  }

  /** erase descending left. */
  lemma {:induction false} EraseLeftElements<V>(t: Tree<V>, k: int)
    requires IsBST(t) && t.Node? && k < t.key
    ensures Elements(Erase(t, k)) == Elements(t) - {k}
    decreases t, 0
  {
    var Node(l, key, w, r) := t;
    EraseElements(l, k);
    assert k !in Keys(r);
    RemoveBelowNode(Elements(l), Elements(r), key, w, k);
  }

  /** erase descending right. */
  lemma {:induction false} EraseRightElements<V>(t: Tree<V>, k: int)
    requires IsBST(t) && t.Node? && t.key < k
    ensures Elements(Erase(t, k)) == Elements(t) - {k}
    decreases t, 0
  {
    var Node(l, key, w, r) := t;
    EraseElements(r, k);
    assert k !in Keys(l);
    RemoveBelowNode(Elements(l), Elements(r), key, w, k);
  }

  /** The two-children case of erase: the successor's entry moves up. */
  lemma {:induction false} EraseSuccessorElements<V>(t: Tree<V>)
    requires IsBST(t) && t.Node? && t.left.Node? && t.right.Node?
    ensures Elements(Erase(t, t.key)) == Elements(t) - {t.key}
    decreases t, 0
  {
    var Node(l, key, w, r) := t;
    var succ := MinNode(r);
    MinNodeIsLeast(r);
    EraseElements(r, succ.key);
    ElementsOfNode(t);
    var L, R, R' := Elements(l), Elements(r), Elements(Erase(r, succ.key));
    assert R' == R - {succ.key};
    assert Erase(t, key) == Node(l, succ.key, succ.val, Erase(r, succ.key));
    forall x ensures x in (L + R')[succ.key := succ.val] <==> x in Elements(t) - {key} {
    }
    forall x | x in Elements(t) - {key}
      ensures (L + R')[succ.key := succ.val][x] == (Elements(t) - {key})[x]
    {
      if x == succ.key {
        assert R[x] == succ.val;
      } else if x in R' {
        assert x in Keys(r);
      }
    }
  }

  /** erase keeps the ordering invariant. */
  lemma {:induction false} EraseKeepsBST<V>(t: Tree<V>, k: int)
    requires IsBST(t)
    ensures IsBST(Erase(t, k))
  {
    match t
    case Leaf =>
    case Node(l, key, w, r) =>
      if k < key {
        EraseKeepsBST(l, k);
        EraseElements(l, k);
      } else if key < k {
        EraseKeepsBST(r, k);
        EraseElements(r, k);
      } else if l.Node? && r.Node? {
        var succ := MinNode(r);
        MinNodeIsLeast(r);
        EraseKeepsBST(r, succ.key);
        EraseElements(r, succ.key);
        assert forall x :: x in Keys(l) ==> x < succ.key;
        assert forall x :: x in Keys(Erase(r, succ.key)) ==> succ.key < x;
      }
  }

  /**
   erase keeps the ordering invariant, removes `k`, and every other key
   keeps its value.
   */
  lemma EraseCorrect<V>(t: Tree<V>, k: int)
    requires IsBST(t)
    ensures IsBST(Erase(t, k))
    ensures Elements(Erase(t, k)) == Elements(t) - {k}
  {
    EraseKeepsBST(t, k);
    EraseElements(t, k);
  }

  // --------------------------------------------------------------- range

  /**
   rangeRec: the (key, value) pairs handed to the visitor, in call order.
   Recurse left only when `lo < key`, report the node when it lies in
   [lo, hi], recurse right only when `key < hi`.
   */
  function Range<V>(t: Tree<V>, lo: int, hi: int): (r: seq<(int, V)>)
    ensures forall i :: 0 <= i < |r| ==> lo <= r[i].0 <= hi && r[i].0 in Keys(t)
  {
    match t
    case Leaf => []
    case Node(l, key, v, r) =>
      (if lo < key then Range(l, lo, hi) else [])
      + (if !(key < lo) && !(hi < key) then [(key, v)] else [])
      + (if key < hi then Range(r, lo, hi) else [])
  }

  /** Comparisons charged by rangeRec: three for every node it visits. */
  function RangeCost<V>(t: Tree<V>, lo: int, hi: int): (c: nat)
    ensures c % 3 == 0
    ensures c == 0 <==> t.Leaf?
  {
    match t
    case Leaf => 0
    case Node(l, key, _, r) =>
      3 + (if lo < key then RangeCost(l, lo, hi) else 0)
        + (if key < hi then RangeCost(r, lo, hi) else 0)
  }

  /** The reference definition: the entries of `s` with keys in [lo, hi], in order. */
  function Within<V>(s: seq<(int, V)>, lo: int, hi: int): seq<(int, V)>
  {
    if s == [] then []
    else (if lo <= s[0].0 <= hi then [s[0]] else []) + Within(s[1..], lo, hi)
  }

  lemma {:induction false} WithinAppend<V>(a: seq<(int, V)>, b: seq<(int, V)>, lo: int, hi: int)
    ensures Within(a + b, lo, hi) == Within(a, lo, hi) + Within(b, lo, hi)
  {
    if a != [] {
      assert (a + b)[1..] == a[1..] + b;
      WithinAppend(a[1..], b, lo, hi);
    } else {
      assert a + b == b;
    }
  }

  lemma {:induction false} WithinNone<V>(s: seq<(int, V)>, lo: int, hi: int)
    requires forall i :: 0 <= i < |s| ==> s[i].0 < lo || hi < s[i].0
    ensures Within(s, lo, hi) == []
  {
    if s != [] {
      WithinNone(s[1..], lo, hi);
    }
  }

  /** Filtering keeps exactly the entries whose keys lie in [lo, hi]. */
  lemma {:induction false} WithinMembers<V>(s: seq<(int, V)>, lo: int, hi: int)
    ensures forall i :: 0 <= i < |Within(s, lo, hi)| ==>
      Within(s, lo, hi)[i] in s && lo <= Within(s, lo, hi)[i].0 <= hi
    ensures forall i :: 0 <= i < |s| && lo <= s[i].0 <= hi ==> s[i] in Within(s, lo, hi)
  {
    if s != [] {
      WithinMembers(s[1..], lo, hi);
      var w, w' := Within(s, lo, hi), Within(s[1..], lo, hi);
      if lo <= s[0].0 <= hi {
        assert w == [s[0]] + w';
        forall i | 0 < i < |w| ensures w[i] in s {
          assert w[i] == w'[i - 1];
        }
      }
      forall i | 0 < i < |s| && lo <= s[i].0 <= hi ensures s[i] in w {
        assert s[i] == s[1..][i - 1];
      }
    }
  }

  lemma {:induction false} WithinAbove<V>(s: seq<(int, V)>, lo: int, hi: int, b: int)
    requires forall i :: 0 <= i < |s| ==> b < s[i].0
    ensures forall i :: 0 <= i < |Within(s, lo, hi)| ==> b < Within(s, lo, hi)[i].0
  {
    if s != [] {
      WithinAbove(s[1..], lo, hi, b);
    }
  }

  /** Filtering an ascending listing leaves it ascending. */
  lemma {:induction false} WithinAscending<V>(s: seq<(int, V)>, lo: int, hi: int)
    requires StrictlyAscending(s)
    ensures StrictlyAscending(Within(s, lo, hi))
  {
    if s != [] {
      WithinAscending(s[1..], lo, hi);
      WithinAbove(s[1..], lo, hi, s[0].0);
    }
  }

  /**
   On a search tree the pruned traversal reports exactly what a full
   in-order traversal filtered to [lo, hi] would.
   */
  lemma {:induction false} RangeIsFilteredInOrder<V>(t: Tree<V>, lo: int, hi: int)
    requires IsBST(t)
    ensures Range(t, lo, hi) == Within(InOrder(t), lo, hi)
  {
    match t
    case Leaf =>
    case Node(l, key, v, r) =>
      var L, R := InOrder(l), InOrder(r);
      var below := if lo < key then Range(l, lo, hi) else [];
      var here := if !(key < lo) && !(hi < key) then [(key, v)] else [];
      var above := if key < hi then Range(r, lo, hi) else [];
      assert below == Within(L, lo, hi) by {
        if lo < key {
          RangeIsFilteredInOrder(l, lo, hi);
        } else {
          InOrderEntriesIn(l);
          WithinNone(L, lo, hi);
        }
      }
      assert above == Within(R, lo, hi) by {
        if key < hi {
          RangeIsFilteredInOrder(r, lo, hi);
        } else {
          InOrderEntriesIn(r);
          WithinNone(R, lo, hi);
        }
      }
      assert here == Within([(key, v)], lo, hi) by {
        assert [(key, v)][1..] == [];
      }
      assert InOrder(t) == (L + [(key, v)]) + R;
      WithinAppend(L + [(key, v)], R, lo, hi);
      WithinAppend(L, [(key, v)], lo, hi);
      assert Range(t, lo, hi) == below + here + above;
  }

  /** rangeApply hands over entries in strictly ascending key order. */
  lemma RangeAscending<V>(t: Tree<V>, lo: int, hi: int)
    requires IsBST(t)
    ensures StrictlyAscending(Range(t, lo, hi))
  {
    RangeIsFilteredInOrder(t, lo, hi);
    InOrderAscending(t);
    WithinAscending(InOrder(t), lo, hi);
  }

  /** rangeApply hands over exactly the entries with lo <= key <= hi. */
  lemma RangeEntries<V>(t: Tree<V>, lo: int, hi: int)
    requires IsBST(t)
    ensures forall i :: 0 <= i < |Range(t, lo, hi)| ==>
      var (k, v) := Range(t, lo, hi)[i];
      k in Elements(t) && Elements(t)[k] == v && lo <= k <= hi
    ensures forall k :: k in Elements(t) && lo <= k <= hi ==> (k, Elements(t)[k]) in Range(t, lo, hi)
  {
    RangeIsFilteredInOrder(t, lo, hi);
    InOrderEntries(t);
    WithinMembers(InOrder(t), lo, hi);
    var s, w := InOrder(t), Range(t, lo, hi);
    forall i | 0 <= i < |w|
      ensures w[i].0 in Elements(t) && Elements(t)[w[i].0] == w[i].1 && lo <= w[i].0 <= hi
    {
      var j :| 0 <= j < |s| && s[j] == w[i];
    }
    forall k | k in Elements(t) && lo <= k <= hi ensures (k, Elements(t)[k]) in w {
      var j :| 0 <= j < |s| && s[j] == (k, Elements(t)[k]);
    }
  }
}
