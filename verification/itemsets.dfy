/**
 * Itemsets, transactions and support.
 *
 * An item is an `int`, an itemset (and a transaction) is a `set<int>`, and the
 * transaction store is the sequence of transactions in file order.  A
 * `std::set<int>` is iterated in ascending order; `Elements` gives that order.
 */
module Itemsets {

  /** The transactions of the store, in the order they were read. */
  type DataSet = seq<set<int>>

  /**
   * Position `i` of `s`.  The order of positions is stated through it, so
   * that the solver applies that fact only where a proof asks for it.
   */
  ghost function ItemAt(s: seq<int>, i: nat): int
    requires i < |s|
  {
    s[i]
  }

  /** Items in ascending order with no repetition, as a `std::set` hands them out. */
  ghost predicate StrictlyIncreasing(s: seq<int>) {
    forall a: nat, b: nat :: a < b < |s| ==> ItemAt(s, a) < ItemAt(s, b)
  }

  /** The items at positions `i` and later of `ts`. */
  ghost function Elems(ts: seq<int>, i: nat): set<int> {
    set j | i <= j < |ts| :: ts[j]
  }

  /** A non-empty itemset has an item (stated before a `:|` choice from it). */
  lemma HasItem(s: set<int>)
    requires s != {}
    ensures exists x :: x in s
  {
    if forall x :: x !in s {
      assert false;
    }
  }

  /** A non-empty collection of itemsets has a member (stated before a `:|` choice from it). */
  lemma HasItemset(s: set<set<int>>)
    requires s != {}
    ensures exists x :: x in s
  {
    if forall x :: x !in s {
      assert false;
    }
  }

  lemma {:induction false} MinExists(s: set<int>)
    requires s != {}
    ensures exists m :: m in s && forall y :: y in s ==> m <= y
    decreases |s|
  {
    HasItem(s);
    var x :| x in s;
    if s - {x} != {} {
      MinExists(s - {x});
      var m :| m in s - {x} && forall y :: y in s - {x} ==> m <= y;
      var least := if x < m then x else m;
      forall y | y in s ensures least <= y {
        if y != x { assert y in s - {x}; }
      }
    } else {
      forall y | y in s ensures x <= y {
        assert y !in s - {x};
      }
    }
  }

  /** The least item of a non-empty itemset. */
  function Min(s: set<int>): (m: int)
    requires s != {}
    ensures m in s && forall y :: y in s ==> m <= y
  {
    MinExists(s);
    var m :| m in s && forall y :: y in s ==> m <= y;
    m
  }

  /** The items of `s` in ascending order: the order in which a range-for over a `std::set` visits them. */
  function Elements(s: set<int>): (r: seq<int>)
    ensures |r| == |s|
    ensures forall x :: x in r <==> x in s
    decreases |s|
  {
    if s == {} then []
    else
      var m := Min(s);
      [m] + Elements(s - {m})
  }

  /** `Elements` lists the items in strictly ascending order. */
  lemma {:induction false} ElementsIncreasing(s: set<int>)
    ensures StrictlyIncreasing(Elements(s))
    decreases |s|
  {
    if s != {} {
      var m := Min(s);
      var rest := Elements(s - {m});
      ElementsIncreasing(s - {m});
      var r := Elements(s);
      assert r == [m] + rest;
      forall a: nat, b: nat | a < b < |r| ensures ItemAt(r, a) < ItemAt(r, b) {
        assert r[b] == rest[b - 1];
        if a == 0 {
          assert r[b] in s - {m};
        } else {
          assert r[a] == rest[a - 1];
          assert ItemAt(rest, a - 1) < ItemAt(rest, b - 1);
        }
      }
    }
  }

  /** In a strictly ascending sequence, position `i` holds an item that no earlier position holds. */
  lemma IncreasingFresh(s: seq<int>, i: nat)
    requires StrictlyIncreasing(s) && i < |s|
    ensures s[i] !in s[..i]
  {
    forall j | 0 <= j < i ensures s[j] != s[i] {
      assert ItemAt(s, j) < ItemAt(s, i);
    }
  }

  /** The items of a non-empty sequence are those of all but its last position, and the last. */
  lemma ElemsSnoc(xs: seq<int>)
    requires xs != []
    ensures Elems(xs, 0) == Elems(xs[..|xs| - 1], 0) + {xs[|xs| - 1]}
  {
    var init := xs[..|xs| - 1];
    forall y | y in Elems(xs, 0) ensures y in Elems(init, 0) + {xs[|xs| - 1]} {
      var i :| 0 <= i < |xs| && xs[i] == y;
      if i < |init| {
        assert init[i] == y;
      }
    }
    forall y | y in Elems(init, 0) ensures y in Elems(xs, 0) {
      var i :| 0 <= i < |init| && init[i] == y;
      assert xs[i] == y;
    }
  }

  /** Every item of `Elements(s)` from position 0 on is exactly `s`. */
  lemma ElementsCover(s: set<int>)
    ensures Elems(Elements(s), 0) == s
  {
    var r := Elements(s);
    forall x | x in s ensures x in Elems(r, 0) {
      var j :| 0 <= j < |r| && r[j] == x;
    }
  }

  /** Number of transactions of `db` that contain every item of `s` (the support count of `s`). */
  function Support(db: DataSet, s: set<int>): (n: nat)
    ensures n <= |db|
  {
    if db == [] then 0
    else Support(db[..|db| - 1], s) + (if s <= db[|db| - 1] then 1 else 0)
  }

  /** Appending one transaction adds one to the support of exactly the itemsets it contains. */
  lemma SupportAppend(db: DataSet, t: set<int>, s: set<int>)
    ensures Support(db + [t], s) == Support(db, s) + (if s <= t then 1 else 0)
  {
    assert (db + [t])[..|db|] == db;
  }

  /** Anti-monotonicity of support: a superset never occurs in more transactions than its subset. */
  lemma {:induction false} SupportAntiMonotone(db: DataSet, a: set<int>, b: set<int>)
    requires a <= b
    ensures Support(db, b) <= Support(db, a)
  {
    if db != [] {
      SupportAntiMonotone(db[..|db| - 1], a, b);
    }
  }

  /** All items that occur in some transaction of `db`. */
  function Items(db: DataSet): set<int> {
    if db == [] then {} else Items(db[..|db| - 1]) + db[|db| - 1]
  }

  /** An item occurs in the store exactly when its singleton has positive support. */
  lemma {:induction false} ItemsSupport(db: DataSet, x: int)
    ensures x in Items(db) <==> Support(db, {x}) > 0
  {
    if db != [] {
      ItemsSupport(db[..|db| - 1], x);
    }
  }

  /** A subset is no larger than its superset. */
  lemma SubsetCard(a: set<int>, b: set<int>)
    requires a <= b
    ensures |a| <= |b|
  {
    assert b == a + (b - a);
  }

  /** Removing a present element lowers the size by one. */
  lemma RemoveCard(s: set<int>, x: int)
    requires x in s
    ensures |s - {x}| == |s| - 1
  {
    assert s == (s - {x}) + {x};
  }

  /** A subset of `s` with exactly `n` items, for any `n <= |s|`. */
  lemma {:induction false} SubsetOfSize(s: set<int>, n: nat) returns (y: set<int>)
    requires n <= |s|
    ensures y <= s && |y| == n
    decreases |s|
  {
    if n == |s| {
      y := s;
    } else {
      var m := Min(s);
      RemoveCard(s, m);
      y := SubsetOfSize(s - {m}, n);
    }
  }

  /** A one-element set is a singleton. */
  lemma SingletonCard(s: set<int>)
    requires |s| == 1
    ensures s == {Min(s)}
  {
    var m := Min(s);
    RemoveCard(s, m);
    assert s - {m} == {};
  }

  /**
   * A set of items held by reference.  The source passes `std::set<int>&`
   * buffers through its recursive helpers and restores or clears them on the
   * way out; this class stands for such a buffer.
   */
  class ItemBuffer {
    var items: set<int>

    constructor ()
      ensures items == {}
    {
      items := {};
    }
  }
}
