/**
 * What one level of the miner is meant to compute: the frequent itemsets of
 * each size, and the candidate join that `generateCandidates` performs.  The
 * lemmas here are the facts the level loop of `Apriori` rests on.
 */
module Levels {
  import opened Itemsets
  import opened TransactionStore

  /** `SetsCounter`: itemsets with their counts. */
  type Counter = map<set<int>, int>

  /** `s` is an `n`-itemset made of items of the store whose support reaches `minSupport`. */
  ghost predicate IsFrequent(db: DataSet, minSupport: int, n: nat, s: set<int>) {
    s <= Items(db) && |s| == n && Support(db, s) >= minSupport
  }

  /** `level` holds exactly the frequent `n`-itemsets, each with its support count. */
  ghost predicate IsLevel(level: Counter, db: DataSet, minSupport: int, n: nat) {
    && (forall s {:trigger s in level} :: s in level <==> IsFrequent(db, minSupport, n, s))
    && (forall s :: s in level ==> level[s] == Support(db, s))
  }

  /** The entries of `m` whose count reaches `minSupport`, with the same counts. */
  ghost function Filter(m: Counter, minSupport: int): Counter {
    map c | c in m && m[c] >= minSupport :: m[c]
  }

  /** The entries of `m` whose keys are not in `rest`: the part of a map a key loop has already visited. */
  ghost function Without<K, V>(m: map<K, V>, rest: set<K>): map<K, V> {
    map key | key in m && key !in rest :: m[key]
  }

  /** One singleton candidate per counted item, carrying the item's count. */
  ghost function LevelOne(itemsCounter: map<int, int>): Counter {
    map x | x in itemsCounter :: {x} := itemsCounter[x]
  }

  /**
   * The singleton candidates for the items `xs`, entered in the order of `xs`
   * with each item's count.
   */
  ghost function Singletons(counter: map<int, int>, xs: seq<int>): Counter
    requires forall i :: 0 <= i < |xs| ==> xs[i] in counter
  {
    if xs == [] then map[]
    else Singletons(counter, xs[..|xs| - 1])[{xs[|xs| - 1]} := counter[xs[|xs| - 1]]]
  }

  /** The entries of `m` whose keys are in `s`. */
  ghost function Restrict(m: map<int, int>, s: set<int>): map<int, int> {
    map x | x in m && x in s :: m[x]
  }

  /** One more counted item gives one more singleton candidate. */
  lemma LevelOneUpdate(counter: map<int, int>, item: int, count: int)
    ensures LevelOne(counter[item := count]) == LevelOne(counter)[{item} := count]
  {
    var lhs, rhs := LevelOne(counter[item := count]), LevelOne(counter)[{item} := count];
    forall c | c in lhs ensures c in rhs && lhs[c] == rhs[c] {
      var x :| x in counter[item := count] && c == {x};
      if x != item {
        assert c != {item} by {
          assert x in c;
        }
      }
    }
    forall c | c in rhs ensures c in lhs {
      if c != {item} {
        var x :| x in counter && c == {x};
        assert x in counter[item := count];
      }
    }
  }

  /** Entering the items of `xs` one by one yields the singleton candidates of exactly those items. */
  lemma {:induction false} SingletonsRestrict(counter: map<int, int>, xs: seq<int>)
    requires forall i :: 0 <= i < |xs| ==> xs[i] in counter
    ensures Singletons(counter, xs) == LevelOne(Restrict(counter, Elems(xs, 0)))
  {
    if xs == [] {
      assert Restrict(counter, Elems(xs, 0)) == map[];
      assert LevelOne(map[]) == map[];
    } else {
      var init, x := xs[..|xs| - 1], xs[|xs| - 1];
      SingletonsRestrict(counter, init);
      ElemsSnoc(xs);
      RestrictAdd(counter, Elems(init, 0), x);
      LevelOneUpdate(Restrict(counter, Elems(init, 0)), x, counter[x]);
    }
  }

  /** Widening the restriction by one counted item adds that item's entry. */
  lemma RestrictAdd(m: map<int, int>, s: set<int>, x: int)
    requires x in m
    ensures Restrict(m, s + {x}) == Restrict(m, s)[x := m[x]]
  {
  }

  /** Entering every counted item, in ascending order, yields all the singleton candidates. */
  lemma SingletonsAll(counter: map<int, int>)
    ensures Singletons(counter, Elements(counter.Keys)) == LevelOne(counter)
  {
    var xs := Elements(counter.Keys);
    ElementsCover(counter.Keys);
    RestrictAll(counter, Elems(xs, 0));
    assert forall i :: 0 <= i < |xs| ==> xs[i] in counter;
    SingletonsRestrict(counter, xs);
  }

  /** Restricting a map to a superset of its keys keeps all of it. */
  lemma RestrictAll(m: map<int, int>, s: set<int>)
    requires m.Keys <= s
    ensures Restrict(m, s) == m
  {
    assert Restrict(m, s).Keys == m.Keys;
  }

  /** Only the items of `xs` have a singleton entered. */
  lemma {:induction false} SingletonsDomain(counter: map<int, int>, xs: seq<int>, x: int)
    requires forall i :: 0 <= i < |xs| ==> xs[i] in counter
    ensures {x} in Singletons(counter, xs) ==> x in xs
  {
    if xs != [] && {x} in Singletons(counter, xs) {
      var init, last := xs[..|xs| - 1], xs[|xs| - 1];
      SingletonsDomain(counter, init, x);
      if {x} == {last} {
        assert x in {last};
      } else {
        assert x in init;
      }
    }
  }

  /**
   * Entering the next item of an ascending run into candidates that already
   * hold the singletons of the earlier items, unless its singleton is there,
   * gives the singletons of the longer run.
   */
  lemma SingletonsStep(counter: map<int, int>, keys: seq<int>, i: nat, cands: Counter, old0: Counter)
    requires i < |keys| && StrictlyIncreasing(keys)
    requires forall j :: 0 <= j < |keys| ==> keys[j] in counter
    requires cands == Singletons(counter, keys[..i]) + old0
    ensures (if {keys[i]} in cands then cands else cands[{keys[i]} := counter[keys[i]]])
            == Singletons(counter, keys[..i + 1]) + old0
  {
    var sing := Singletons(counter, keys[..i]);
    SingletonsDomain(counter, keys[..i], keys[i]);
    IncreasingFresh(keys, i);
    assert keys[..i + 1][..i] == keys[..i];
    assert Singletons(counter, keys[..i + 1]) == sing[{keys[i]} := counter[keys[i]]];
    InsertUnder(sing, old0, {keys[i]}, counter[keys[i]]);
  }

  /** Inserting a key into the left operand of a map union, where the right one takes precedence. */
  lemma InsertUnder<K, V>(m: map<K, V>, old0: map<K, V>, key: K, value: V)
    ensures m[key := value] + old0 == if key in old0 then m + old0 else (m + old0)[key := value]
  {
  }

  /** Every one-element-removed subset of `c` is in `sets` (the Apriori closure check). */
  ghost predicate SubsetsIn(c: set<int>, sets: set<set<int>>) {
    forall x :: x in c ==> c - {x} in sets
  }

  /** All items occurring in some itemset of `sets`. */
  ghost function ItemsOf(sets: set<set<int>>): set<int> {
    set p, x | p in sets && x in p :: x
  }

  /** Collecting the items of one more itemset `p`. */
  lemma ItemsOfAdd(done: set<set<int>>, p: set<int>)
    ensures ItemsOf(done + {p}) == ItemsOf(done) + p
  {
    forall x | x in p ensures x in ItemsOf(done + {p}) {
      assert p in done + {p};
    }
  }

  /** `c` is `p + {x}` for the previous set `p == c - {x}` and the new item `x`, taken from `items`. */
  ghost predicate JoinWith(prev: set<set<int>>, items: set<int>, c: set<int>, x: int) {
    x in c && x in items && c - {x} in prev
  }

  /**
   * `c` is one of the joins `p + {x}` (`p` in `prev`, `x` in `items`, `x` not
   * in `p`) that pass the closure check against `sets`.
   */
  ghost predicate JoinFrom(sets: set<set<int>>, prev: set<set<int>>, items: set<int>, c: set<int>) {
    SubsetsIn(c, sets) && exists x :: JoinWith(prev, items, c, x)
  }

  /** `c` is among the candidates `generateCandidates` builds from the frequent sets `sets`. */
  ghost predicate Joined(sets: set<set<int>>, c: set<int>) {
    JoinFrom(sets, sets, ItemsOf(sets), c)
  }

  /** Trying one more item `x` for a fixed `p` adds at most the one join `p + {x}`. */
  lemma JoinFromAddItem(sets: set<set<int>>, p: set<int>, items: set<int>, x: int, c: set<int>)
    ensures JoinFrom(sets, {p}, items + {x}, c) <==>
            JoinFrom(sets, {p}, items, c) || (x !in p && SubsetsIn(p + {x}, sets) && c == p + {x})
  {
    if JoinFrom(sets, {p}, items + {x}, c) {
      var y :| JoinWith({p}, items + {x}, c, y);
      if y != x {
        assert JoinWith({p}, items, c, y);
      } else {
        assert c == p + {x};
      }
    }
    if x !in p && SubsetsIn(p + {x}, sets) && c == p + {x} {
      assert c - {x} == p;
      assert JoinWith({p}, items + {x}, c, x);
    }
    if JoinFrom(sets, {p}, items, c) {
      var y :| JoinWith({p}, items, c, y);
      assert JoinWith({p}, items + {x}, c, y);
    }
  }

  /** Finishing one more previous set `p` adds its joins. */
  lemma JoinFromAddPrev(sets: set<set<int>>, prev: set<set<int>>, p: set<int>, items: set<int>, c: set<int>)
    ensures JoinFrom(sets, prev + {p}, items, c) <==> JoinFrom(sets, prev, items, c) || JoinFrom(sets, {p}, items, c)
  {
    if JoinFrom(sets, prev + {p}, items, c) {
      var y :| JoinWith(prev + {p}, items, c, y);
      if c - {y} == p {
        assert JoinWith({p}, items, c, y);
      } else {
        assert JoinWith(prev, items, c, y);
      }
    }
    if JoinFrom(sets, prev, items, c) {
      var y :| JoinWith(prev, items, c, y);
      assert JoinWith(prev + {p}, items, c, y);
    }
    if JoinFrom(sets, {p}, items, c) {
      var y :| JoinWith({p}, items, c, y);
      assert JoinWith(prev + {p}, items, c, y);
    }
  }

  /** No item at all yields no join. */
  lemma JoinFromNoItems(sets: set<set<int>>, prev: set<set<int>>, c: set<int>)
    ensures !JoinFrom(sets, prev, {}, c)
  {
  }

  /** No previous set at all yields no join. */
  lemma JoinFromNoPrev(sets: set<set<int>>, items: set<int>, c: set<int>)
    ensures !JoinFrom(sets, {}, items, c)
  {
  }

  /**
   * The candidate table part-way through `generateCandidates`: besides the
   * entries `c0` it started with, it holds the joins of the previous sets in
   * `prev`, each with count 0.
   */
  ghost predicate Joining(cands: Counter, c0: Counter, sets: set<set<int>>, prev: set<set<int>>, items: set<int>) {
    && (forall c {:trigger c in cands} :: c in cands <==> c in c0 || JoinFrom(sets, prev, items, c))
    && (forall c :: c in cands ==> cands[c] == if c in c0 then c0[c] else 0)
  }

  /** As `Joining`, with the joins of `p` with the items `doneItems` added. */
  ghost predicate JoiningItems(cands: Counter, c0: Counter, sets: set<set<int>>, prev: set<set<int>>, items: set<int>,
                               p: set<int>, doneItems: set<int>) {
    && (forall c {:trigger c in cands} :: c in cands <==> c in c0 || JoinFrom(sets, prev, items, c) || JoinFrom(sets, {p}, doneItems, c))
    && (forall c :: c in cands ==> cands[c] == if c in c0 then c0[c] else 0)
  }

  /** Before any previous set is handled, the table is as it started. */
  lemma JoiningInit(c0: Counter, sets: set<set<int>>, items: set<int>)
    ensures Joining(c0, c0, sets, {}, items)
  {
    forall c ensures !JoinFrom(sets, {}, items, c) {
      JoinFromNoPrev(sets, items, c);
    }
  }

  /** Before any item is tried with `p`, nothing of `p` has been added. */
  lemma JoiningItemsInit(cands: Counter, c0: Counter, sets: set<set<int>>, prev: set<set<int>>, items: set<int>, p: set<int>)
    requires Joining(cands, c0, sets, prev, items)
    ensures JoiningItems(cands, c0, sets, prev, items, p, {})
  {
    forall c ensures !JoinFrom(sets, {p}, {}, c) {
      JoinFromNoItems(sets, {p}, c);
    }
  }

  /** Trying item `x` with `p` when the join `p + {x}` is new and passes the check: it enters with count 0. */
  lemma JoiningItemsAdd(cands: Counter, c0: Counter, sets: set<set<int>>, prev: set<set<int>>, items: set<int>,
                        p: set<int>, doneItems: set<int>, x: int)
    requires JoiningItems(cands, c0, sets, prev, items, p, doneItems)
    requires x !in p && SubsetsIn(p + {x}, sets) && p + {x} !in cands
    ensures JoiningItems(cands[p + {x} := 0], c0, sets, prev, items, p, doneItems + {x})
  {
    var next := cands[p + {x} := 0];
    forall c ensures c in next <==> c in c0 || JoinFrom(sets, prev, items, c) || JoinFrom(sets, {p}, doneItems + {x}, c) {
      JoinFromAddItem(sets, p, doneItems, x, c);
    }
  }

  /** Trying item `x` with `p` when the join is not new or fails the check leaves the table as it is. */
  lemma JoiningItemsKeep(cands: Counter, c0: Counter, sets: set<set<int>>, prev: set<set<int>>, items: set<int>,
                         p: set<int>, doneItems: set<int>, x: int)
    requires JoiningItems(cands, c0, sets, prev, items, p, doneItems)
    requires x in p || !SubsetsIn(p + {x}, sets) || p + {x} in cands
    ensures JoiningItems(cands, c0, sets, prev, items, p, doneItems + {x})
  {
    forall c ensures c in cands <==> c in c0 || JoinFrom(sets, prev, items, c) || JoinFrom(sets, {p}, doneItems + {x}, c) {
      JoinFromAddItem(sets, p, doneItems, x, c);
    }
  }

  /** Once `p` has been tried with every item, `p` joins the handled previous sets. */
  lemma JoiningPrevStep(cands: Counter, c0: Counter, sets: set<set<int>>, prev: set<set<int>>, items: set<int>, p: set<int>)
    requires JoiningItems(cands, c0, sets, prev, items, p, items)
    ensures Joining(cands, c0, sets, prev + {p}, items)
  {
    forall c ensures c in cands <==> c in c0 || JoinFrom(sets, prev + {p}, items, c) {
      JoinFromAddPrev(sets, prev, p, items, c);
    }
  }

  /**
   * `cands` has the keys of `c0`, and each count has grown by the number of
   * times its itemset occurs in `visits`.
   */
  ghost predicate Counted(cands: Counter, c0: Counter, visits: seq<set<int>>) {
    cands.Keys == c0.Keys && forall c {:trigger multiset(visits)[c]} :: c in cands ==> cands[c] == c0[c] + multiset(visits)[c]
  }

  /** Nothing visited, nothing counted. */
  lemma CountedNone(c0: Counter)
    ensures Counted(c0, c0, [])
  {
  }

  /** Visiting one itemset adds one to its count if it is a key, and nothing otherwise. */
  lemma CountedOne(c0: Counter, s: set<int>)
    ensures Counted(if s in c0 then c0[s := c0[s] + 1] else c0, c0, [s])
  {
  }

  /** Counting two runs of visits one after the other. */
  lemma CountedThen(c0: Counter, c1: Counter, c2: Counter, v1: seq<set<int>>, v2: seq<set<int>>)
    requires Counted(c1, c0, v1) && Counted(c2, c1, v2)
    ensures Counted(c2, c0, v1 + v2)
  {
  }

  /** `cands` has the keys of `c0`, and each count has grown by the support of its itemset in `db`. */
  ghost predicate Supported(cands: Counter, c0: Counter, db: DataSet) {
    cands.Keys == c0.Keys && forall c :: c in cands ==> cands[c] == c0[c] + Support(db, c)
  }

  /** Counting the store so far and then one more transaction counts the grown store. */
  lemma SupportedThen(c0: Counter, c1: Counter, c2: Counter, db: DataSet, t: set<int>)
    requires Supported(c1, c0, db) && Supported(c2, c1, [t])
    ensures Supported(c2, c0, db + [t])
  {
    forall c | c in c2 ensures c2[c] == c0[c] + Support(db + [t], c) {
      SupportAppend(db, t, c);
      SupportAppend([], t, c);
      assert [] + [t] == [t];
    }
  }

  /** Levels `1..|levels|` as `findFrequentItemSets` computes them: `levels[i]` is the level of `(i + 1)`-itemsets. */
  ghost predicate Mined(levels: seq<Counter>, db: DataSet, minSupport: int) {
    forall i :: 0 <= i < |levels| ==> IsLevel(levels[i], db, minSupport, i + 1)
  }

  /** No level of `levels` is empty. */
  ghost predicate NonEmpty(levels: seq<Counter>) {
    forall i :: 0 <= i < |levels| ==> |levels[i]| > 0
  }

  /** The next level extends a mined sequence of levels. */
  lemma MinedAppend(levels: seq<Counter>, level: Counter, db: DataSet, minSupport: int)
    requires Mined(levels, db, minSupport) && IsLevel(level, db, minSupport, |levels| + 1)
    ensures Mined(levels + [level], db, minSupport)
  {
  }

  /** Dropping levels from the end keeps them mined. */
  lemma MinedPrefix(levels: seq<Counter>, n: nat, db: DataSet, minSupport: int)
    requires Mined(levels, db, minSupport) && n <= |levels|
    ensures Mined(levels[..n], db, minSupport)
  {
  }

  /** Every join of `n`-itemsets has `n + 1` items and passes the closure check. */
  lemma JoinedSound(sets: set<set<int>>, n: nat, c: set<int>)
    requires forall p :: p in sets ==> |p| == n
    requires Joined(sets, c)
    ensures |c| == n + 1 && SubsetsIn(c, sets)
  {
    var x :| JoinWith(sets, ItemsOf(sets), c, x);
    RemoveCard(c, x);
  }

  /**
   * Completeness of the join: an `(n + 1)`-itemset, `n >= 1`, all of whose
   * one-element-removed subsets are in `sets`, is among the joins.
   */
  lemma JoinedComplete(sets: set<set<int>>, n: nat, c: set<int>)
    requires n >= 1
    requires forall p :: p in sets ==> |p| == n
    requires |c| == n + 1 && SubsetsIn(c, sets)
    ensures Joined(sets, c)
  {
    HasItem(c);
    var x :| x in c;
    RemoveCard(c, x);
    HasItem(c - {x});
    var y :| y in c - {x};
    assert c - {y} in sets && x in c - {y};
    assert x in ItemsOf(sets);
    assert JoinWith(sets, ItemsOf(sets), c, x);
  }

  /** A frequent `(n + 1)`-itemset passes the closure check against any level holding the frequent `n`-itemsets. */
  lemma FrequentClosed(db: DataSet, minSupport: int, n: nat, prev: Counter, c: set<int>)
    requires IsLevel(prev, db, minSupport, n)
    requires IsFrequent(db, minSupport, n + 1, c)
    ensures SubsetsIn(c, prev.Keys)
  {
    forall x | x in c ensures c - {x} in prev {
      RemoveCard(c, x);
      SupportAntiMonotone(db, c - {x}, c);
      assert IsFrequent(db, minSupport, n, c - {x});
    }
  }

  /** Every subset of a frequent itemset is itself frequent at its own size. */
  lemma FrequentDownClosed(db: DataSet, minSupport: int, n: nat, s: set<int>, y: set<int>)
    requires IsFrequent(db, minSupport, n, s) && y <= s
    ensures |y| <= n && IsFrequent(db, minSupport, |y|, y)
  {
    SubsetCard(y, s);
    SupportAntiMonotone(db, y, s);
  }

  /** If some `m`-itemset is frequent, so is some `n`-itemset for every `n <= m`. */
  lemma FrequentBelow(db: DataSet, minSupport: int, n: nat, m: nat, s: set<int>)
    requires n <= m && IsFrequent(db, minSupport, m, s)
    ensures exists y :: IsFrequent(db, minSupport, n, y)
  {
    var y := SubsetOfSize(s, n);
    FrequentDownClosed(db, minSupport, m, s, y);
  }

  /** A frequent `n`-itemset can only exist while `n` does not exceed the number of distinct items. */
  lemma FrequentBound(db: DataSet, minSupport: int, n: nat, s: set<int>)
    requires IsFrequent(db, minSupport, n, s)
    ensures n <= |Items(db)|
  {
    SubsetCard(s, Items(db));
  }

  /**
   * One level step: counting the joins of level `n` (`n >= 1`) and keeping
   * those that reach `minSupport` yields exactly level `n + 1`.
   */
  lemma NextLevel(db: DataSet, minSupport: int, n: nat, prev: Counter, counted: Counter)
    requires n >= 1
    requires IsLevel(prev, db, minSupport, n)
    requires forall c :: c in counted <==> Joined(prev.Keys, c)
    requires forall c :: c in counted ==> counted[c] == Support(db, c)
    ensures IsLevel(Filter(counted, minSupport), db, minSupport, n + 1)
  {
    var filtered := Filter(counted, minSupport);
    forall c | c in filtered ensures IsFrequent(db, minSupport, n + 1, c) {
      JoinedSound(prev.Keys, n, c);
      var x :| JoinWith(prev.Keys, ItemsOf(prev.Keys), c, x);
      var q :| q in prev && x in q;
      assert IsFrequent(db, minSupport, n, c - {x}) && IsFrequent(db, minSupport, n, q);
      forall y | y in c ensures y in Items(db) {
        if y != x {
          assert y in c - {x};
        }
      }
    }
    forall c | IsFrequent(db, minSupport, n + 1, c) ensures c in filtered {
      FrequentClosed(db, minSupport, n, prev, c);
      JoinedComplete(prev.Keys, n, c);
    }
  }

  /** Level 1: the singleton candidates built from the item counts, filtered, are exactly level 1. */
  lemma FirstLevel(db: DataSet, minSupport: int)
    ensures IsLevel(Filter(LevelOne(ItemCounts(db)), minSupport), db, minSupport, 1)
  {
    var filtered := Filter(LevelOne(ItemCounts(db)), minSupport);
    forall c | c in filtered ensures IsFrequent(db, minSupport, 1, c) && filtered[c] == Support(db, c) {
      var x :| x in ItemCounts(db) && c == {x};
    }
    forall c | IsFrequent(db, minSupport, 1, c) ensures c in filtered {
      SingletonCard(c);
      var x := Min(c);
      assert x in Items(db);
    }
  }
}
