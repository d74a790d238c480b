/**
 * A stable sort by an integer key: the model of JavaScript's
 * Array.prototype.sort with a numeric comparator, which is stable. It is
 * specified by three facts: the result is ordered by the key, it is a
 * permutation of the input, and the elements sharing a key keep their
 * input order.
 */
module StableSort {

  predicate SortedBy<T>(s: seq<T>, key: T -> int)
  {
    forall i, j :: 0 <= i < j < |s| ==> key(s[i]) <= key(s[j])
  }

  /** The elements of `s` whose key is `k`, in their order in `s`. */
  function WithKey<T>(s: seq<T>, key: T -> int, k: int): seq<T>
  {
    if s == [] then []
    else WithKey(s[..|s| - 1], key, k) + (if key(s[|s| - 1]) == k then [s[|s| - 1]] else [])
  }

  /** Inserts `x` after every element whose key is not larger. */
  function Insert<T>(t: seq<T>, x: T, key: T -> int): seq<T>
  {
    if t == [] then [x]
    else if key(t[|t| - 1]) <= key(x) then t + [x]
    else Insert(t[..|t| - 1], x, key) + [t[|t| - 1]]
  }

  function SortBy<T>(s: seq<T>, key: T -> int): seq<T>
  {
    if s == [] then [] else Insert(SortBy(s[..|s| - 1], key), s[|s| - 1], key)
  }

  lemma {:induction false} InsertPermutes<T>(t: seq<T>, x: T, key: T -> int)
    ensures multiset(Insert(t, x, key)) == multiset(t) + multiset{x}
    decreases |t|
  {
    if t != [] && key(t[|t| - 1]) > key(x) {
      var last := t[|t| - 1];
      InsertPermutes(t[..|t| - 1], x, key);
      assert t == t[..|t| - 1] + [last];
    }
  }

  lemma {:induction false} InsertSorted<T>(t: seq<T>, x: T, key: T -> int)
    requires SortedBy(t, key)
    ensures SortedBy(Insert(t, x, key), key)
    decreases |t|
  {
    if t != [] && key(t[|t| - 1]) > key(x) {
      var init, last := t[..|t| - 1], t[|t| - 1];
      InsertSorted(init, x, key);
      InsertPermutes(init, x, key);
      var r := Insert(init, x, key);
      forall i | 0 <= i < |r| ensures key(r[i]) <= key(last) {
        assert r[i] in multiset(r);
        if r[i] != x {
          assert r[i] in multiset(init);
          var j :| 0 <= j < |init| && init[j] == r[i];
          assert t[j] == init[j];
        }
      }
    }
  }

  lemma {:induction false} InsertKeepsKeyOrder<T>(t: seq<T>, x: T, key: T -> int, k: int)
    requires SortedBy(t, key)
    ensures WithKey(Insert(t, x, key), key, k) ==
      WithKey(t, key, k) + (if key(x) == k then [x] else [])
    decreases |t|
  {
    if t == [] {
      assert WithKey([x], key, k) == WithKey([], key, k) + (if key(x) == k then [x] else []) by {
        assert [x][..0] == [];
      }
    } else if key(t[|t| - 1]) <= key(x) {
      assert (t + [x])[..|t|] == t;
    } else {
      var init, last := t[..|t| - 1], t[|t| - 1];
      assert SortedBy(init, key);
      InsertKeepsKeyOrder(init, x, key, k);
      var r := Insert(init, x, key);
      assert (r + [last])[..|r|] == r;
      assert WithKey(t, key, k) == WithKey(init, key, k) + (if key(last) == k then [last] else []);
    }
  }

  /** The sort orders by the key and is a permutation of its input. */
  lemma {:induction false} SortByOrders<T>(s: seq<T>, key: T -> int)
    ensures SortedBy(SortBy(s, key), key)
    ensures multiset(SortBy(s, key)) == multiset(s)
    decreases |s|
  {
    if s != [] {
      var init, last := s[..|s| - 1], s[|s| - 1];
      SortByOrders(init, key);
      var t := SortBy(init, key);
      assert SortBy(s, key) == Insert(t, last, key);
      InsertSorted(t, last, key);
      InsertPermutes(t, last, key);
      assert s == init + [last];
      assert multiset(s) == multiset(init) + multiset{last};
    }
  }

  /** The sort is stable: the elements with any one key keep their input order. */
  lemma {:induction false} SortByIsStable<T>(s: seq<T>, key: T -> int, k: int)
    ensures WithKey(SortBy(s, key), key, k) == WithKey(s, key, k)
    decreases |s|
  {
    if s != [] {
      var init, last := s[..|s| - 1], s[|s| - 1];
      SortByIsStable(init, key, k);
      SortByOrders(init, key);
      InsertKeepsKeyOrder(SortBy(init, key), last, key, k);
    }
  }

  /** Every element of an insertion is the inserted element or was already there. */
  lemma InsertMember<T>(t: seq<T>, x: T, key: T -> int, y: T)
    requires y in Insert(t, x, key)
    ensures y == x || y in t
  {
    InsertPermutes(t, x, key);
    assert y in multiset(Insert(t, x, key));
  }

  /** Inserting an element whose projection is new keeps projections distinct. */
  lemma {:induction false} InsertDistinct<T, U>(t: seq<T>, x: T, key: T -> int, proj: T -> U)
    requires forall i, j :: 0 <= i < j < |t| ==> proj(t[i]) != proj(t[j])
    requires forall i :: 0 <= i < |t| ==> proj(t[i]) != proj(x)
    ensures var r := Insert(t, x, key);
      forall i, j :: 0 <= i < j < |r| ==> proj(r[i]) != proj(r[j])
    decreases |t|
  {
    if t != [] && key(t[|t| - 1]) > key(x) {
      var init, last := t[..|t| - 1], t[|t| - 1];
      InsertDistinct(init, x, key, proj);
      var r := Insert(init, x, key);
      forall i | 0 <= i < |r| ensures proj(r[i]) != proj(last) {
        InsertMember(init, x, key, r[i]);
        if r[i] != x {
          var k :| 0 <= k < |init| && init[k] == r[i];
          assert t[k] == init[k];
        }
      }
      var out := Insert(t, x, key);
      assert out == r + [last];
      forall i, j | 0 <= i < j < |out| ensures proj(out[i]) != proj(out[j]) {
        if j < |r| {
          assert out[i] == r[i] && out[j] == r[j];
        } else {
          assert out[i] == r[i] && out[j] == last;
        }
      }
    }
  }

  /** Sorting keeps a projection that is injective on the input injective. */
  lemma {:induction false} SortByDistinct<T, U>(s: seq<T>, key: T -> int, proj: T -> U)
    requires forall i, j :: 0 <= i < j < |s| ==> proj(s[i]) != proj(s[j])
    ensures var r := SortBy(s, key);
      forall i, j :: 0 <= i < j < |r| ==> proj(r[i]) != proj(r[j])
    decreases |s|
  {
    if s != [] {
      var init, last := s[..|s| - 1], s[|s| - 1];
      SortByDistinct(init, key, proj);
      SortByOrders(init, key);
      var t := SortBy(init, key);
      forall i | 0 <= i < |t| ensures proj(t[i]) != proj(last) {
        assert t[i] in multiset(init);
        var k :| 0 <= k < |init| && init[k] == t[i];
        assert s[k] == init[k];
      }
      InsertDistinct(t, last, key, proj);
      assert SortBy(s, key) == Insert(t, last, key);
    }
  }

  /** In a sorted sequence a smaller key comes first. */
  lemma SmallerKeyFirst<T>(s: seq<T>, key: T -> int, i: nat, j: nat)
    requires SortedBy(s, key) && i < |s| && j < |s| && key(s[i]) < key(s[j])
    ensures i < j
  {
  }
}
