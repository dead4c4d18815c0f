/**
 Inserting strictly increasing keys into the unbalanced tree of BST.h builds
 a right spine, a list-shaped tree whose costs are exact functions of a
 key's position. The last lemma replays the seeded scenario of
 tests/test_runner.cpp on that shape.
 */
module Skewed {
  import opened Trees
  import opened TreeOps
  import Bst

  /** The right spine of `s`: every node's left child is empty. */
  function Spine<V>(s: seq<(int, V)>): Tree<V>
  {
    if s == [] then Leaf else Node(Leaf, s[0].0, s[0].1, Spine(s[1..]))
  }

  /** Insert the entries of `s` one after another, as a seeding loop does. */
  function InsertAll<V>(t: Tree<V>, s: seq<(int, V)>): (r: Tree<V>)
    ensures Keys(t) <= Keys(r)
    ensures forall i :: 0 <= i < |s| ==> s[i].0 in Keys(r)
    decreases |s|
  {
    if s == [] then t
    else
      var r := InsertAll(Insert(t, s[0].0, s[0].1), s[1..]);
      assert forall i :: 0 < i < |s| ==> s[i] == s[1..][i - 1];
      r
  }

  /** Inserting one more entry after a batch is the batch's tree plus that entry. */
  lemma {:induction false} InsertAllSnoc<V>(t: Tree<V>, s: seq<(int, V)>, k: int, v: V)
    ensures InsertAll(t, s + [(k, v)]) == Insert(InsertAll(t, s), k, v)
    decreases |s|
  {
    if s != [] {
      InsertAllSnoc(Insert(t, s[0].0, s[0].1), s[1..], k, v);
      assert (s + [(k, v)])[1..] == s[1..] + [(k, v)];
    } else {
      assert InsertAll(Insert(t, k, v), []) == Insert(t, k, v);
    }
  }

  lemma {:induction false} SpineKeys<V>(s: seq<(int, V)>)
    ensures forall x :: x in Keys(Spine(s)) <==> exists i :: 0 <= i < |s| && s[i].0 == x
  {
    if s != [] {
      SpineKeys(s[1..]);
      assert Keys(Spine(s)) == {s[0].0} + Keys(Spine(s[1..]));
      forall x | x in Keys(Spine(s)) && x != s[0].0 ensures exists i :: 0 <= i < |s| && s[i].0 == x {
        assert x in Keys(Spine(s[1..]));
        var j :| 0 <= j < |s[1..]| && s[1..][j].0 == x;
        assert s[j + 1].0 == x;
      }
      forall x | exists i :: 0 <= i < |s| && s[i].0 == x ensures x in Keys(Spine(s)) {
        var i :| 0 <= i < |s| && s[i].0 == x;
        if i > 0 {
          assert s[1..][i - 1].0 == x;
        }
      }
    }
  }

  /** A key larger than every key of the spine lands at its bottom. */
  lemma {:induction false} InsertAtSpineEnd<V>(s: seq<(int, V)>, k: int, v: V)
    requires forall i :: 0 <= i < |s| ==> s[i].0 < k
    ensures Insert(Spine(s), k, v) == Spine(s + [(k, v)])
  {
    if s != [] {
      InsertAtSpineEnd(s[1..], k, v);
      assert (s + [(k, v)])[1..] == s[1..] + [(k, v)];
    }
  }

  lemma {:induction false} InsertAllOntoSpine<V>(a: seq<(int, V)>, b: seq<(int, V)>)
    requires StrictlyAscending(a + b)
    ensures InsertAll(Spine(a), b) == Spine(a + b)
    decreases |b|
  {
    if b == [] {
      assert a + b == a;
    } else {
      forall i | 0 <= i < |a| ensures a[i].0 < b[0].0 {
        assert (a + b)[i] == a[i] && (a + b)[|a|] == b[0];
      }
      InsertAtSpineEnd(a, b[0].0, b[0].1);
      assert a + [b[0]] + b[1..] == a + b;
      InsertAllOntoSpine(a + [b[0]], b[1..]);
    }
  }

  /** Strictly increasing insertions build the right spine. */
  lemma InsertAscendingBuildsSpine<V>(s: seq<(int, V)>)
    requires StrictlyAscending(s)
    ensures InsertAll(Leaf, s) == Spine(s)
  {
    assert [] + s == s;
    InsertAllOntoSpine([], s);
  }

  /** Finding the i-th key (from 0) of a spine costs 2 * i + 1. */
  lemma {:induction false} FindOnSpine<V>(s: seq<(int, V)>, i: int)
    requires StrictlyAscending(s) && 0 <= i < |s|
    ensures Find(Spine(s), s[i].0) == Some(s[i].1)
    ensures SearchCost(Spine(s), s[i].0) == 2 * i + 1
  {
    if i > 0 {
      FindOnSpine(s[1..], i - 1);
    }
  }

  /**
   Looking for an absent key that exceeds exactly the first j keys walks
   j + 1 nodes (all of them when j is the spine's length), two comparisons
   each.
   */
  lemma {:induction false} FindMissOnSpine<V>(s: seq<(int, V)>, k: int, j: int)
    requires StrictlyAscending(s) && 0 <= j <= |s|
    requires forall i :: 0 <= i < j ==> s[i].0 < k
    requires j < |s| ==> k < s[j].0
    ensures Find(Spine(s), k) == None
    ensures SearchCost(Spine(s), k) == if j < |s| then 2 * j + 2 else 2 * |s|
  {
    if j > 0 {
      FindMissOnSpine(s[1..], k, j - 1);
    }
  }

  /**
   Erasing the i-th key of a spine finds a node without a left child,
   splices its right child in, and charges one comparison per node visited.
   */
  lemma {:induction false} EraseOnSpine<V>(s: seq<(int, V)>, i: int)
    requires StrictlyAscending(s) && 0 <= i < |s|
    ensures Erase(Spine(s), s[i].0) == Spine(s[..i] + s[i + 1..])
    ensures EraseCost(Spine(s), s[i].0) == i + 1
  {
    if i > 0 {
      EraseOnSpine(s[1..], i - 1);
      assert s[1..][..i - 1] + s[1..][i..] == (s[..i] + s[i + 1..])[1..];
    } else {
      assert s[..0] + s[1..] == s[1..];
    }
  }

  /**
   rangeApply on a spine never recurses left into a non-empty subtree and
   keeps going right while the key is below hi: when exactly the first j
   keys are below hi it visits j + 1 nodes (all when j is the length),
   three comparisons each.
   */
  lemma {:induction false} RangeCostOnSpine<V>(s: seq<(int, V)>, lo: int, hi: int, j: int)
    requires StrictlyAscending(s) && 0 <= j <= |s|
    requires forall i :: 0 <= i < j ==> s[i].0 < hi
    requires j < |s| ==> hi <= s[j].0
    ensures RangeCost(Spine(s), lo, hi) == if j < |s| then 3 * j + 3 else 3 * |s|
  {
    if j > 0 {
      RangeCostOnSpine(s[1..], lo, hi, j - 1);
    }
  }

  /** The spine of an ascending listing is a search tree that lists it back in order. */
  lemma {:induction false} SpineIsBST<V>(s: seq<(int, V)>)
    requires StrictlyAscending(s)
    ensures IsBST(Spine(s)) && InOrder(Spine(s)) == s
  {
    if s != [] {
      SpineIsBST(s[1..]);
      SpineKeys(s[1..]);
      assert [] + [s[0]] + s[1..] == s;
    }
  }

  /** Ascending neighbours make a strictly ascending listing. */
  lemma {:induction false} AscendingByNeighbours<V>(s: seq<(int, V)>)
    requires forall i :: 0 <= i < |s| - 1 ==> s[i].0 < s[i + 1].0
    ensures StrictlyAscending(s)
  {
    if s != [] {
      AscendingByNeighbours(s[1..]);
      forall j | 0 < j < |s| ensures s[0].0 < s[j].0 {
        if j > 1 {
          assert s[1..][0] == s[1] && s[1..][j - 1] == s[j];
        }
      }
      forall i, j | 0 <= i < j < |s| ensures s[i].0 < s[j].0 {
        if i > 0 {
          assert s[1..][i - 1] == s[i] && s[1..][j - 1] == s[j];
        }
      }
    }
  }

  /**
   After erasing the i-th key of a spine, looking it up again walks the
   i keys below it and the one above it, if any, two comparisons each.
   */
  lemma FindAfterEraseOnSpine<V>(s: seq<(int, V)>, i: int)
    requires StrictlyAscending(s) && 0 <= i < |s|
    ensures Find(Erase(Spine(s), s[i].0), s[i].0) == None
    ensures SearchCost(Erase(Spine(s), s[i].0), s[i].0) == if i + 1 < |s| then 2 * i + 2 else 2 * i
  {
    EraseOnSpine(s, i);
    SpliceAscending(s, i);
    var s' := s[..i] + s[i + 1..];
    assert forall j :: 0 <= j < i ==> s'[j] == s[j];
    assert i < |s'| ==> s'[i] == s[i + 1];
    FindMissOnSpine(s', s[i].0, i);
  }

  /** Leaving out one entry of a strictly ascending listing keeps it strictly ascending. */
  lemma SpliceAscending<V>(s: seq<(int, V)>, i: int)
    requires StrictlyAscending(s) && 0 <= i < |s|
    ensures StrictlyAscending(s[..i] + s[i + 1..])
  {
    var s' := s[..i] + s[i + 1..];
    forall a, b | 0 <= a < b < |s'| ensures s'[a].0 < s'[b].0 {
      var a', b' := if a < i then a else a + 1, if b < i then b else b + 1;
      assert s'[a] == s[a'] && s'[b] == s[b'];
    }
  }

  /** The seven records seeded by the test runner: id and last name. */
  function Seed(): seq<(int, string)>
  {
    [ (1000123, "Nguyen"), (1000456, "Patel"), (1000789, "Gonzalez"), (1000811, "Smith"),
      (1001022, "Ali"), (1001099, "Smith"), (1002042, "Green") ]
  }

  /** Seeding the ids in the runner's order builds their right spine. */
  lemma SeedBuildsSpine(s: seq<(int, string)>)
    requires s == Seed()
    ensures StrictlyAscending(s)
    ensures InsertAll(Leaf, s) == Spine(s)
  {
    AscendingByNeighbours(s);
    InsertAscendingBuildsSpine(s);
  }

  /**
   The costs the test runner expects of the id index: finding the third id
   costs 5 and an id above all costs 14.
   */
  lemma SeededFindCosts(s: seq<(int, string)>)
    requires s == Seed()
    ensures var t := InsertAll(Leaf, s);
      && Find(t, 1000789) == Some("Gonzalez") && SearchCost(t, 1000789) == 5
      && Find(t, 9999999) == None && SearchCost(t, 9999999) == 14
  {
    SeedBuildsSpine(s);
    FindOnSpine(s, 2);
    FindMissOnSpine(s, 9999999, 7);
  }

  /** The seeded entries with ids in [1000400, 1001000]. */
  lemma SeedWithin()
    ensures Within(Seed(), 1000400, 1001000)
      == [(1000456, "Patel"), (1000789, "Gonzalez"), (1000811, "Smith")]
  {
    var s := Seed();
    var lo, hi := 1000400, 1001000;
    var a, b, c, d := s[0], s[1], s[2], s[3];
    assert s == [a, b, c, d] + s[4..];
    WithinAppend([a, b, c, d], s[4..], lo, hi);
    WithinNone(s[4..], lo, hi);
    assert [a, b, c, d][1..] == [b, c, d] && [b, c, d][1..] == [c, d] && [c, d][1..] == [d];
    assert Within([d], lo, hi) == [d];
    assert Within([c, d], lo, hi) == [c, d];
    assert Within([b, c, d], lo, hi) == [b, c, d];
  }

  /** The range [1000400, 1001000] reports three ids at a cost of 15. */
  lemma SeededRange(s: seq<(int, string)>)
    requires s == Seed()
    ensures var t := InsertAll(Leaf, s);
      && Range(t, 1000400, 1001000) == [(1000456, "Patel"), (1000789, "Gonzalez"), (1000811, "Smith")]
      && RangeCost(t, 1000400, 1001000) == 15
  {
    SeedBuildsSpine(s);
    SpineIsBST(s);
    RangeIsFilteredInOrder(Spine(s), 1000400, 1001000);
    SeedWithin();
    RangeCostOnSpine(s, 1000400, 1001000, 4);
  }

  /**
   Erasing 1000811 (a node without a left child) splices its right child in;
   looking the id up afterwards walks four nodes and costs 8.
   */
  lemma SeededErase(s: seq<(int, string)>)
    requires s == Seed()
    ensures var t := InsertAll(Leaf, s);
      && Find(t, 1000811).Some?
      && Find(Erase(t, 1000811), 1000811) == None
      && SearchCost(Erase(t, 1000811), 1000811) == 8
  {
    SeedBuildsSpine(s);
    FindOnSpine(s, 3);
    FindAfterEraseOnSpine(s, 3);
  }

  /**
   The seeding loop of the test runner: insert the entries one after another
   into a fresh tree, in the order given.
   */
  method BuildIndex<V>(s: seq<(int, V)>) returns (index: Bst.BST<V>)
    ensures fresh(index) && index.Valid() && index.root == InsertAll(Leaf, s)
  {
    index := new Bst.BST<V>();
    var i := 0;
    while i < |s|
      invariant 0 <= i <= |s|
      invariant index.Valid() && index.root == InsertAll(Leaf, s[..i])
    {
      assert s[..i + 1] == s[..i] + [(s[i].0, s[i].1)];
      InsertAllSnoc(Leaf, s[..i], s[i].0, s[i].1);
      var _ := index.Insert(s[i].0, s[i].1);
      i := i + 1;
    }
    assert s[..i] == s;
  }

  /** One measured lookup, as the test runner takes it: reset, find, read the counter. */
  method MeasuredFind<V>(index: Bst.BST<V>, k: int) returns (r: Option<V>, cost: int)
    requires index.Valid()
    modifies index`comparisons
    ensures r == Find(index.root, k) && cost == SearchCost(index.root, k)
  {
    index.ResetMetrics();
    r := index.Find(k);
    cost := index.comparisons;
  }

  /** One measured range query: reset, rangeApply, read the counter. */
  method MeasuredRange<V>(index: Bst.BST<V>, lo: int, hi: int) returns (rows: seq<(int, V)>, cost: int)
    requires index.Valid()
    modifies index`comparisons
    ensures rows == Range(index.root, lo, hi) && cost == RangeCost(index.root, lo, hi)
  {
    index.ResetMetrics();
    rows := index.RangeApply(lo, hi);
    cost := index.comparisons;
  }

  /**
   The same scenario driven through the class: seed the ids in order, then
   reset the counter before each query and read it afterwards.
   */
  method SeededRun() returns (found: Option<string>, findCost: int,
                              missed: Option<string>, missCost: int,
                              rows: seq<(int, string)>, rangeCost: int,
                              erased: bool, afterErase: Option<string>, afterEraseCost: int)
    ensures found == Some("Gonzalez") && findCost == 5
    ensures missed == None && missCost == 14
    ensures rows == [(1000456, "Patel"), (1000789, "Gonzalez"), (1000811, "Smith")] && rangeCost == 15
    ensures erased && afterErase == None && afterEraseCost == 8
  {
    var index := BuildIndex(Seed());
    SeededFindCosts(Seed());
    found, findCost := MeasuredFind(index, 1000789);
    missed, missCost := MeasuredFind(index, 9999999);
    SeededRange(Seed());
    rows, rangeCost := MeasuredRange(index, 1000400, 1001000);
    SeededErase(Seed());
    FindCorrect(index.root, 1000811);
    erased := index.Erase(1000811);
    afterErase, afterEraseCost := MeasuredFind(index, 1000811);
  }
}
