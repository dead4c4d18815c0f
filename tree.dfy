/**
 The node structure of the generic binary search tree in BST.h, as a value:
 a subtree is either empty (a null `Node*`) or a node holding a key, its
 payload and two owned children. Keys are integers; the payload type is left
 open.
 */
module Trees {

  datatype Option<T> = None | Some(value: T)

  datatype Tree<V> = Leaf | Node(left: Tree<V>, key: int, val: V, right: Tree<V>)

  /** The keys stored anywhere in `t`. */
  function Keys<V>(t: Tree<V>): set<int>
  {
    match t
    case Leaf => {}
    case Node(l, k, _, r) => Keys(l) + {k} + Keys(r)
  }

  /** The abstract map a tree stands for; the node's own entry wins. */
  function Elements<V>(t: Tree<V>): (m: map<int, V>)
    ensures m.Keys == Keys(t)
  {
    match t
    case Leaf => map[]
    case Node(l, k, v, r) => (Elements(l) + Elements(r))[k := v]
  }

  /**
   The ordering invariant of BST.h: every key in a left subtree is smaller
   than the node's key and every key in a right subtree is larger, so no
   key occurs twice.
   */
  ghost predicate IsBST<V>(t: Tree<V>)
  {
    match t
    case Leaf => true
    case Node(l, k, _, r) =>
      && IsBST(l) && IsBST(r)
      && (forall x :: x in Keys(l) ==> x < k)
      && (forall x :: x in Keys(r) ==> k < x)
  }

  /** The entries of `t` in in-order (left, node, right). */
  function InOrder<V>(t: Tree<V>): seq<(int, V)>
  {
    match t
    case Leaf => []
    case Node(l, k, v, r) => InOrder(l) + [(k, v)] + InOrder(r)
  }

  /** Keys of the entries strictly ascend. */
  ghost predicate StrictlyAscending<V>(s: seq<(int, V)>)
  {
    forall i, j :: 0 <= i < j < |s| ==> s[i].0 < s[j].0
  }

  function Size<V>(t: Tree<V>): nat
  {
    match t
    case Leaf => 0
    case Node(l, _, _, r) => Size(l) + 1 + Size(r)
  }

  /** Number of nodes on the longest root-to-leaf path. */
  function Height<V>(t: Tree<V>): nat
  {
    match t
    case Leaf => 0
    case Node(l, _, _, r) => 1 + if Height(l) < Height(r) then Height(r) else Height(l)
  }

  /** Map algebra for updating below a node whose own entry is `key |-> w`. */
  lemma UpdateBelowNode<V>(L: map<int, V>, R: map<int, V>, key: int, w: V, k: int, v: V)
    requires k != key
    ensures k !in R ==> (L[k := v] + R)[key := w] == (L + R)[key := w][k := v]
    ensures (L + R[k := v])[key := w] == (L + R)[key := w][k := v]
  {
  }

  /** Map algebra for removing below a node whose own entry is `key |-> w`. */
  lemma RemoveBelowNode<V>(L: map<int, V>, R: map<int, V>, key: int, w: V, k: int)
    requires k != key
    ensures k !in R ==> (L - {k} + R)[key := w] == (L + R)[key := w] - {k}
    ensures k !in L ==> (L + (R - {k}))[key := w] == (L + R)[key := w] - {k}
  {
  }

  /** Every entry listed in-order is an entry of the tree (no BST needed). */
  lemma {:induction false} InOrderEntriesIn<V>(t: Tree<V>)
    ensures forall i :: 0 <= i < |InOrder(t)| ==> InOrder(t)[i].0 in Keys(t)
  {
    match t
    case Leaf =>
    case Node(l, k, v, r) =>
      InOrderEntriesIn(l);
      InOrderEntriesIn(r);
      var L, R := InOrder(l), InOrder(r);
      assert InOrder(t) == L + [(k, v)] + R;
      forall i | 0 <= i < |InOrder(t)| ensures InOrder(t)[i].0 in Keys(t) {
        if i < |L| {
          assert InOrder(t)[i] == L[i];
        } else if i > |L| {
          assert InOrder(t)[i] == R[i - |L| - 1];
        }
      }
  }

  /** On a search tree the in-order listing strictly ascends by key. */
  lemma {:induction false} InOrderAscending<V>(t: Tree<V>)
    requires IsBST(t)
    ensures StrictlyAscending(InOrder(t))
  {
    match t
    case Leaf =>
    case Node(l, k, v, r) =>
      InOrderAscending(l);
      InOrderAscending(r);
      InOrderEntriesIn(l);
      InOrderEntriesIn(r);
      var L, R := InOrder(l), InOrder(r);
      var s := InOrder(t);
      assert s == L + [(k, v)] + R;
      forall i, j | 0 <= i < j < |s| ensures s[i].0 < s[j].0 {
        if j < |L| {
          assert s[i] == L[i] && s[j] == L[j];
        } else if j == |L| {
          assert s[i] == L[i];
        } else if i < |L| {
          assert s[i] == L[i] && s[j] == R[j - |L| - 1];
        } else if i == |L| {
          assert s[j] == R[j - |L| - 1];
        } else {
          assert s[i] == R[i - |L| - 1] && s[j] == R[j - |L| - 1];
        }
      }
  }

  /** On a search tree the node's map agrees with each subtree's on its keys. */
  lemma ElementsOfNode<V>(t: Tree<V>)
    requires t.Node? && IsBST(t)
    ensures forall x :: x in Keys(t.left) ==> Elements(t)[x] == Elements(t.left)[x]
    ensures forall x :: x in Keys(t.right) ==> Elements(t)[x] == Elements(t.right)[x]
    ensures Elements(t)[t.key] == t.val
  {
  }

  /** On a search tree the in-order listing holds exactly the map's entries. */
  lemma {:induction false} InOrderEntries<V>(t: Tree<V>)
    requires IsBST(t)
    ensures forall i :: 0 <= i < |InOrder(t)| ==>
      InOrder(t)[i].0 in Elements(t) && Elements(t)[InOrder(t)[i].0] == InOrder(t)[i].1
    ensures forall x :: x in Elements(t) ==> (x, Elements(t)[x]) in InOrder(t)
  {
    match t
    case Leaf =>
    case Node(l, k, v, r) =>
      InOrderEntries(l);
      InOrderEntries(r);
      ElementsOfNode(t);
      var L, R := InOrder(l), InOrder(r);
      assert InOrder(t) == L + [(k, v)] + R;
      var s := InOrder(t);
      forall i | 0 <= i < |s| ensures s[i].0 in Elements(t) && Elements(t)[s[i].0] == s[i].1 {
        if i < |L| {
          var x := L[i].0;
          assert s[i] == L[i] && x in Keys(t.left);
          assert Elements(t)[x] == Elements(t.left)[x];
        } else if i == |L| {
          assert s[i] == (k, v);
        } else {
          var x := R[i - |L| - 1].0;
          assert s[i] == R[i - |L| - 1] && x in Keys(t.right);
          assert Elements(t)[x] == Elements(t.right)[x];
        }
      }
      forall x | x in Elements(t) ensures (x, Elements(t)[x]) in s {
        if x in Keys(l) {
          assert (x, Elements(l)[x]) in L;
        } else if x in Keys(r) {
          assert (x, Elements(r)[x]) in R;
        }
      }
  }
}
