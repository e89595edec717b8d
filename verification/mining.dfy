/**
 * The level-wise miner (`class Apriori`): it seeds the 1-itemset candidates
 * from the item counters, and then, level by level, keeps the candidates
 * that reach the minimum support, joins them into the next candidates and
 * counts those against the transactions.
 */
module Mining {
  import opened Itemsets
  import opened Binomial
  import opened Combinations
  import opened TransactionStore
  import opened Levels

  class Apriori {
    /** The transactions, the item counters and the transaction count of the store it mines. */
    const dataSet: DataSet
    const itemsCounter: map<int, int>
    const numOfTransactions: int
    /** The thresholds: a support count and a confidence ratio. */
    const minSupport: int
    const minConfidence: real

    /** `fullAnswer[i]` is the level of `(i + 1)`-itemsets with their counts. */
    var fullAnswer: seq<Counter>
    var candidates: Counter
    var largestSets: Counter
    var done: bool

    /** The counters are those of the transactions being mined. */
    ghost predicate Valid() {
      itemsCounter == ItemCounts(dataSet) && numOfTransactions == |dataSet|
    }

    constructor (database: Database, minSupport: int, minConfidence: real)
      requires database.Valid()
      ensures Valid()
      ensures dataSet == database.dataSet && this.minSupport == minSupport && this.minConfidence == minConfidence
      ensures fullAnswer == [] && candidates == map[] && largestSets == map[] && !done
    {
      dataSet := database.dataSet;
      itemsCounter := database.itemsCounter;
      numOfTransactions := database.numOfTransactions;
      this.minSupport := minSupport;
      this.minConfidence := minConfidence;
      fullAnswer := [];
      candidates := map[];
      largestSets := map[];
      done := false;
    }

    /**
     * One candidate `{item}` per item counter, carrying the item's count; an
     * itemset already present keeps its entry (`insert` does not overwrite).
     */
    method CreateInitialCandidates()
      modifies this`candidates
      ensures candidates == LevelOne(itemsCounter) + old(candidates)
    {
      var tempSet: set<int> := {};
      var keys := Elements(itemsCounter.Keys);
      ElementsIncreasing(itemsCounter.Keys);
      assert forall j :: 0 <= j < |keys| ==> keys[j] in itemsCounter;
      var i := 0;
      while i < |keys|
        invariant 0 <= i <= |keys| && tempSet == {}
        invariant forall j :: 0 <= j < |keys| ==> keys[j] in itemsCounter
        invariant candidates == Singletons(itemsCounter, keys[..i]) + old(candidates)
      {
        var item := keys[i];
        SingletonsStep(itemsCounter, keys, i, candidates, old(candidates));
        tempSet := tempSet + {item};
        if tempSet !in candidates {
          candidates := candidates[tempSet := itemsCounter[item]];
        }
        tempSet := tempSet - {item};
        i := i + 1;
      }
      assert keys[..i] == keys;
      SingletonsAll(itemsCounter);
    }

    /**
     * The candidates reaching `minSupport` join `largestSets` with their
     * counts, the candidates are cleared, `done` records whether the level is
     * empty, and the level is appended to `fullAnswer`.
     */
    method CreateLargestSets()
      modifies this
      ensures largestSets == Filter(old(candidates), minSupport) + old(largestSets)
      ensures candidates == map[] && done == (|largestSets| == 0)
      ensures fullAnswer == old(fullAnswer) + [largestSets]
    {
      var rest := candidates.Keys;
      while rest != {}
        invariant rest <= candidates.Keys
        invariant candidates == old(candidates) && fullAnswer == old(fullAnswer)
        invariant largestSets == Filter(Without(candidates, rest), minSupport) + old(largestSets)
        decreases |rest|
      {
        HasItemset(rest);
        var candidate :| candidate in rest;
        if candidates[candidate] >= minSupport && candidate !in largestSets {
          largestSets := largestSets[candidate := candidates[candidate]];
        }
        FilterStep(candidates, rest, candidate, minSupport, old(largestSets));
        rest := rest - {candidate};
      }
      assert Without(candidates, {}) == candidates;
      candidates := map[];
      done := |largestSets| == 0;
      fullAnswer := fullAnswer + [largestSets];
    }

    /**
     * The joins of the current level: for each set `prevSet` of `largestSets`
     * and each item `newInt` of any of its sets, `prevSet + {newInt}` becomes a
     * candidate with count 0 when `newInt` is new to `prevSet`, the closure
     * check passes and the candidate is not there yet.  `largestSets` is
     * cleared.
     */
    method GenerateCandidates()
      modifies this`candidates, this`largestSets
      ensures forall c :: c in candidates <==> c in old(candidates) || Joined(old(largestSets).Keys, c)
      ensures forall c :: c in candidates ==> candidates[c] == if c in old(candidates) then old(candidates)[c] else 0
      ensures largestSets == map[]
    {
      var allPreviousSets := AllPreviousItems();
      ghost var sets := largestSets.Keys;
      var tempSet := new ItemBuffer();
      var prevRest := largestSets.Keys;
      ghost var donePrev: set<set<int>> := {};
      JoiningInit(candidates, sets, allPreviousSets);
      while prevRest != {}
        invariant prevRest <= sets && donePrev == sets - prevRest
        invariant largestSets == old(largestSets)
        invariant Joining(candidates, old(candidates), sets, donePrev, allPreviousSets)
        decreases |prevRest|
      {
        HasItemset(prevRest);
        var prevSet :| prevSet in prevRest;
        JoinPrevSet(prevSet, allPreviousSets, tempSet, old(candidates), donePrev);
        assert sets - (prevRest - {prevSet}) == donePrev + {prevSet};
        donePrev := donePrev + {prevSet};
        prevRest := prevRest - {prevSet};
      }
      assert donePrev == sets;
      largestSets := map[];
    }

    /**
     * The inner loop of `generateCandidates` for one set `prevSet` of
     * `largestSets`: each item `newInt` of `allPreviousSets` not in `prevSet`
     * whose join passes the closure check adds the join, with count 0, unless
     * it is already a candidate.  Afterwards the joins of `prevSet` are
     * entered next to those of the sets `donePrev` already handled.
     */
    method JoinPrevSet(prevSet: set<int>, allPreviousSets: set<int>, tempSet: ItemBuffer,
                       ghost c0: Counter, ghost donePrev: set<set<int>>)
      requires Joining(candidates, c0, largestSets.Keys, donePrev, allPreviousSets)
      modifies this`candidates, tempSet
      ensures Joining(candidates, c0, largestSets.Keys, donePrev + {prevSet}, allPreviousSets)
    {
      ghost var sets := largestSets.Keys;
      var itemRest := allPreviousSets;
      ghost var doneItems: set<int> := {};
      JoiningItemsInit(candidates, c0, sets, donePrev, allPreviousSets, prevSet);
      while itemRest != {}
        invariant itemRest <= allPreviousSets && doneItems == allPreviousSets - itemRest
        invariant JoiningItems(candidates, c0, sets, donePrev, allPreviousSets, prevSet, doneItems)
        decreases |itemRest|
      {
        var newInt := Min(itemRest);
        tempSet.items := prevSet;
        if newInt !in tempSet.items {
          var ok := GenerateCandidatesHelper(tempSet, newInt);
          if ok && tempSet.items !in candidates {
            JoiningItemsAdd(candidates, c0, sets, donePrev, allPreviousSets, prevSet, doneItems, newInt);
            candidates := candidates[tempSet.items := 0];
          } else {
            JoiningItemsKeep(candidates, c0, sets, donePrev, allPreviousSets, prevSet, doneItems, newInt);
          }
        } else {
          JoiningItemsKeep(candidates, c0, sets, donePrev, allPreviousSets, prevSet, doneItems, newInt);
        }
        assert allPreviousSets - (itemRest - {newInt}) == doneItems + {newInt};
        doneItems := doneItems + {newInt};
        itemRest := itemRest - {newInt};
      }
      assert doneItems == allPreviousSets;
      JoiningPrevStep(candidates, c0, sets, donePrev, allPreviousSets, prevSet);
    }

    /** The first loop of `generateCandidates`: every item of every set in `largestSets`. */
    method AllPreviousItems() returns (allPreviousSets: set<int>)
      ensures allPreviousSets == ItemsOf(largestSets.Keys)
    {
      allPreviousSets := {};
      var rest := largestSets.Keys;
      while rest != {}
        invariant rest <= largestSets.Keys
        invariant allPreviousSets == ItemsOf(largestSets.Keys - rest)
        decreases |rest|
      {
        HasItemset(rest);
        var oneSet :| oneSet in rest;
        ItemsOfAdd(largestSets.Keys - rest, oneSet);
        assert largestSets.Keys - (rest - {oneSet}) == (largestSets.Keys - rest) + {oneSet};
        allPreviousSets := allPreviousSets + oneSet;
        rest := rest - {oneSet};
      }
      assert largestSets.Keys - {} == largestSets.Keys;
    }

    /**
     * The closure check: adds `newInt` to the buffer and then tries each item,
     * removing it and looking the rest up in `largestSets`.  On success the
     * buffer holds the joined set; on failure it holds the subset that was
     * missing.
     */
    method GenerateCandidatesHelper(newCandidate: ItemBuffer, newInt: int) returns (ok: bool)
      modifies newCandidate
      ensures ok <==> SubsetsIn(old(newCandidate.items) + {newInt}, largestSets.Keys)
      ensures ok ==> newCandidate.items == old(newCandidate.items) + {newInt}
      ensures !ok ==> exists item :: item in old(newCandidate.items) + {newInt} &&
                        newCandidate.items == old(newCandidate.items) + {newInt} - {item} &&
                        newCandidate.items !in largestSets
    {
      newCandidate.items := newCandidate.items + {newInt};
      ghost var joined := newCandidate.items;
      var rest := newCandidate.items;
      while rest != {}
        invariant rest <= joined && newCandidate.items == joined
        invariant forall item :: item in joined - rest ==> joined - {item} in largestSets
        decreases |rest|
      {
        var item := Min(rest);
        newCandidate.items := newCandidate.items - {item};
        if newCandidate.items !in largestSets {
          return false;
        }
        newCandidate.items := newCandidate.items + {item};
        assert newCandidate.items == joined;
        rest := rest - {item};
      }
      return true;
    }

    /**
     * Counts the candidates (all of size `k`) against every transaction: a
     * transaction with fewer than `k` items is skipped, and otherwise its
     * `k`-subsets are enumerated when there are more candidates than such
     * subsets, and the candidates are tested one by one when there are not.
     * Either way each candidate gains its support count.
     */
    method ProcessCandidates(k: nat)
      requires forall c :: c in candidates ==> |c| == k
      modifies this`candidates
      ensures Supported(candidates, old(candidates), dataSet)
    {
      var dummySet := new ItemBuffer();
      var candidatesSize := |candidates|;
      var i := 0;
      SupportedNone(candidates);
      while i < |dataSet|
        invariant 0 <= i <= |dataSet| && dummySet.items == {}
        invariant Supported(candidates, old(candidates), dataSet[..i])
      {
        var transaction := dataSet[i];
        ghost var before := candidates;
        if |transaction| >= k {
          var subsets := NChooseK(|transaction|, k);
          if candidatesSize > subsets {
            ElementsIncreasing(transaction);
            ProcessCandidatesHelper1(Elements(transaction), 0, dummySet, k);
            EnumeratedTransaction(before, candidates, transaction, k);
          } else {
            ProcessCandidatesHelper2(transaction);
            ScannedTransaction(before, candidates, transaction);
          }
        } else {
          SkippedTransaction(before, transaction, k);
        }
        assert dataSet[..i + 1] == dataSet[..i] + [transaction];
        SupportedThen(old(candidates), before, candidates, dataSet[..i], transaction);
        i := i + 1;
      }
      assert dataSet[..i] == dataSet;
    }

    /**
     * Enumerates the `k`-subsets of `items` (a transaction in ascending order)
     * from position `start` on, added to the buffer `subSet`, and adds one to
     * the count of every one of them that is a candidate.  The buffer is
     * restored on return.
     */
    method ProcessCandidatesHelper1(items: seq<int>, start: nat, subSet: ItemBuffer, k: nat)
      requires start <= |items| && StrictlyIncreasing(items)
      requires subSet.items !! Elems(items, start)
      modifies this`candidates, subSet`items
      ensures subSet.items == old(subSet.items)
      ensures Counted(candidates, old(candidates), Enum(items, start, old(subSet.items), k))
      decreases k
    {
      if k == 0 {
        CountedOne(candidates, subSet.items);
        if subSet.items in candidates {
          candidates := candidates[subSet.items := candidates[subSet.items] + 1];
        }
      } else {
        ghost var sub := subSet.items;
        var item := start;
        CountedNone(candidates);
        while item < |items|
          invariant start <= item <= |items| && subSet.items == sub
          invariant Counted(candidates, old(candidates), Visited(items, start, item, sub, k))
          decreases |items| - item
        {
          TakeFresh(items, start, item, sub);
          ghost var before := candidates;
          subSet.items := subSet.items + {items[item]};
          ProcessCandidatesHelper1(items, item + 1, subSet, k - 1);
          subSet.items := subSet.items - {items[item]};
          VisitStep(old(candidates), before, candidates, items, start, item, sub, k);
          item := item + 1;
        }
        VisitedAll(items, start, sub, k);
      }
    }

    /**
     * Tests every candidate against the transaction item by item, stopping at
     * the first item the transaction lacks, and adds one to the count of every
     * candidate the transaction contains.
     */
    method ProcessCandidatesHelper2(transaction: set<int>)
      modifies this`candidates
      ensures candidates.Keys == old(candidates).Keys
      ensures forall c :: c in candidates ==> candidates[c] == old(candidates)[c] + (if c <= transaction then 1 else 0)
    {
      var shouldIncrease := true;
      var rest := candidates.Keys;
      while rest != {}
        invariant rest <= candidates.Keys && shouldIncrease
        invariant candidates.Keys == old(candidates).Keys
        invariant forall c :: c in candidates ==>
                    candidates[c] == old(candidates)[c] + (if c !in rest && c <= transaction then 1 else 0)
        decreases |rest|
      {
        HasItemset(rest);
        var candidate :| candidate in rest;
        var unchecked := candidate;
        while unchecked != {}
          invariant unchecked <= candidate && shouldIncrease
          invariant candidate - unchecked <= transaction
          decreases |unchecked|
        {
          var item := Min(unchecked);
          if item !in transaction {
            shouldIncrease := false;
            break;
          }
          unchecked := unchecked - {item};
        }
        if shouldIncrease {
          candidates := candidates[candidate := candidates[candidate] + 1];
        }
        shouldIncrease := true;
        rest := rest - {candidate};
      }
    }

    /**
     * One round of the level loop: join the frequent `(k - 1)`-itemsets into
     * candidates, count them and keep those reaching `minSupport` as the
     * frequent `k`-itemsets, appended to `fullAnswer`.
     */
    method MineLevel(k: nat)
      requires Valid() && k >= 2 && candidates == map[]
      requires IsLevel(largestSets, dataSet, minSupport, k - 1)
      modifies this
      ensures candidates == map[] && fullAnswer == old(fullAnswer) + [largestSets]
      ensures IsLevel(largestSets, dataSet, minSupport, k) && done == (|largestSets| == 0)
    {
      ghost var prev, c0, levels := largestSets, candidates, fullAnswer;
      GenerateCandidates();
      JoinedSizes(dataSet, minSupport, k, prev, c0, candidates);
      ghost var joined := candidates;
      ProcessCandidates(k);
      ghost var counted := candidates;
      RoundLevel(dataSet, minSupport, k, prev, c0, joined, counted);
      assert fullAnswer == levels;
      CreateLargestSets();
      AddEmpty(Filter(counted, minSupport));
    }

    /**
     * The `while (!done)` loop of `findFrequentItemSets`, entered after level
     * `k`: it mines one more level per round, stops at the first empty one and
     * drops it.
     */
    method MineLevels(k: nat)
      requires Valid() && Progress(fullAnswer, dataSet, minSupport, k) && largestSets == fullAnswer[k - 1]
      requires candidates == map[] && done == (|largestSets| == 0)
      modifies this
      ensures Valid() && candidates == map[] && largestSets == map[] && done
      ensures Mined(fullAnswer, dataSet, minSupport)
      ensures NonEmpty(fullAnswer)
      ensures forall n: nat, s :: n > |fullAnswer| ==> !IsFrequent(dataSet, minSupport, n, s)
    {
      var last := k;
      while !done
        invariant Progress(fullAnswer, dataSet, minSupport, last) && largestSets == fullAnswer[last - 1]
        invariant candidates == map[] && done == (|largestSets| == 0)
        decreases |Items(dataSet)| + 1 - last
      {
        ghost var levels := fullAnswer;
        MineLevel(last + 1);
        ProgressStep(levels, largestSets, dataSet, minSupport, last);
        last := last + 1;
      }
      ProgressEnd(fullAnswer, dataSet, minSupport, last);
      assert fullAnswer[..|fullAnswer| - 1] == fullAnswer[..last - 1];
      fullAnswer := fullAnswer[..|fullAnswer| - 1];
    }

    /**
     * The level loop: level 1 from the item counters, then joins, counting and
     * filtering until a level comes out empty, which is dropped.  On return
     * `fullAnswer[i]` holds exactly the frequent `(i + 1)`-itemsets with their
     * support counts, no level is empty, and no larger itemset is frequent.
     */
    method FindFrequentItemSets()
      requires Valid() && candidates == map[] && largestSets == map[]
      modifies this
      ensures Valid() && candidates == map[] && largestSets == map[] && done
      ensures Mined(fullAnswer, dataSet, minSupport)
      ensures NonEmpty(fullAnswer)
      ensures forall n: nat, s :: n > |fullAnswer| ==> !IsFrequent(dataSet, minSupport, n, s)
    {
      fullAnswer := [];
      ghost var c0, l0, f0 := candidates, largestSets, fullAnswer;
      CreateInitialCandidates();
      ghost var c1 := candidates;
      CreateLargestSets();
      ProgressStart(dataSet, minSupport, itemsCounter, c0, c1, l0, largestSets, f0, fullAnswer);
      MineLevels(1);
    }
  }

  /** The joins of the frequent `(k - 1)`-itemsets have `k` items each. */
  lemma JoinedSizes(db: DataSet, minSupport: int, k: nat, prev: Counter, c0: Counter, joined: Counter)
    requires k >= 2 && IsLevel(prev, db, minSupport, k - 1) && c0 == map[]
    requires forall c :: c in joined <==> c in c0 || Joined(prev.Keys, c)
    ensures forall c :: c in joined ==> |c| == k
  {
    forall c | c in joined ensures |c| == k {
      JoinedSound(prev.Keys, k - 1, c);
    }
  }

  /**
   * One round of the level loop yields the next level: the joins of level
   * `k - 1`, entered with count 0 and then counted against the store, keep
   * exactly the frequent `k`-itemsets once filtered.
   */
  lemma RoundLevel(db: DataSet, minSupport: int, k: nat, prev: Counter, c0: Counter, joined: Counter, counted: Counter)
    requires k >= 2 && IsLevel(prev, db, minSupport, k - 1) && c0 == map[]
    requires forall c :: c in joined <==> c in c0 || Joined(prev.Keys, c)
    requires forall c :: c in joined ==> joined[c] == if c in c0 then c0[c] else 0
    requires Supported(counted, joined, db)
    ensures IsLevel(Filter(counted, minSupport), db, minSupport, k)
  {
    assert forall c :: c in counted <==> c in joined;
    NextLevel(db, minSupport, k - 1, prev, counted);
  }

  /**
   * Adding the empty map changes nothing.  `CreateLargestSets` states its
   * result as the filtered candidates added to the old `largestSets`, which
   * is empty after `GenerateCandidates`; the solver does not apply this map
   * equality without being given it.
   */
  lemma AddEmpty<K, V>(m: map<K, V>)
    ensures m + map[] == m
  {
  }

  /** One more candidate visited by the loop of `CreateLargestSets`. */
  lemma FilterStep(m: Counter, rest: set<set<int>>, c: set<int>, minSupport: int, old0: Counter)
    requires c in rest && rest <= m.Keys
    ensures Filter(Without(m, rest - {c}), minSupport) + old0 ==
            if m[c] >= minSupport && c !in Filter(Without(m, rest), minSupport) + old0
            then (Filter(Without(m, rest), minSupport) + old0)[c := m[c]]
            else Filter(Without(m, rest), minSupport) + old0
  {
    var before := Filter(Without(m, rest), minSupport);
    var after := Filter(Without(m, rest - {c}), minSupport);
    if m[c] >= minSupport {
      assert after == before[c := m[c]];
    } else {
      assert after == before;
    }
  }

  /**
   * Taking the item at position `item` into a partial subset that is disjoint
   * from positions `start..` keeps it disjoint from the positions after `item`,
   * and the item is new to the subset.
   */
  lemma TakeFresh(items: seq<int>, start: nat, item: nat, sub: set<int>)
    requires start <= item < |items| && StrictlyIncreasing(items)
    requires sub !! Elems(items, start)
    ensures sub + {items[item]} !! Elems(items, item + 1)
    ensures items[item] !in sub && (sub + {items[item]}) - {items[item]} == sub
    ensures sub + {items[item]} != {}
  {
    ElemsStep(items, item);
    ElemsFrom(items, start, item);
    assert items[item] in Elems(items, start);
  }

  /** The loop of `ProcessCandidatesHelper1` has counted one more branch of the enumeration. */
  lemma VisitStep(c0: Counter, c1: Counter, c2: Counter, items: seq<int>, start: nat, item: nat, sub: set<int>, k: nat)
    requires start <= item < |items| && k >= 1
    requires Counted(c1, c0, Visited(items, start, item, sub, k))
    requires Counted(c2, c1, Enum(items, item + 1, sub + {items[item]}, k - 1))
    ensures Counted(c2, c0, Visited(items, start, item + 1, sub, k))
  {
    CountedThen(c0, c1, c2, Visited(items, start, item, sub, k), Enum(items, item + 1, sub + {items[item]}, k - 1));
  }

  /** Nothing counted yet. */
  lemma SupportedNone(c0: Counter)
    ensures Supported(c0, c0, [])
  {
  }

  /** Enumerating the `k`-subsets of a transaction counts it for every candidate of size `k`. */
  lemma EnumeratedTransaction(c0: Counter, c1: Counter, t: set<int>, k: nat)
    requires forall c :: c in c0 ==> |c| == k
    requires Counted(c1, c0, Enum(Elements(t), 0, {}, k))
    ensures Supported(c1, c0, [t])
  {
    var ts := Elements(t);
    ElementsIncreasing(t);
    ElementsCover(t);
    forall c | c in c1 ensures c1[c] == c0[c] + Support([t], c) {
      EnumSubsets(ts, k, c);
      SupportOne(t, c);
    }
  }

  /** A store of one transaction supports exactly the subsets of it. */
  lemma SupportOne(t: set<int>, c: set<int>)
    ensures Support([t], c) == if c <= t then 1 else 0
  {
    assert [] + [t] == [t];
    SupportAppend([], t, c);
  }

  /** Testing every candidate for containment counts the transaction. */
  lemma ScannedTransaction(c0: Counter, c1: Counter, t: set<int>)
    requires c1.Keys == c0.Keys
    requires forall c :: c in c1 ==> c1[c] == c0[c] + (if c <= t then 1 else 0)
    ensures Supported(c1, c0, [t])
  {
    forall c | c in c1 ensures c1[c] == c0[c] + Support([t], c) {
      SupportOne(t, c);
    }
  }

  /** A transaction with fewer than `k` items contains no candidate of size `k`. */
  lemma SkippedTransaction(c0: Counter, t: set<int>, k: nat)
    requires forall c :: c in c0 ==> |c| == k
    requires |t| < k
    ensures Supported(c0, c0, [t])
  {
    forall c | c in c0 ensures Support([t], c) == 0 {
      SupportOne(t, c);
      if c <= t {
        SubsetCard(c, t);
      }
    }
  }

  /**
   * The state of the level loop after level `k`: `levels` holds the levels
   * `1..k`, all mined correctly, all but the last non-empty, and a non-empty
   * last level keeps `k` within the number of distinct items.
   */
  ghost predicate Progress(levels: seq<Counter>, db: DataSet, minSupport: int, k: nat) {
    && k >= 1 && |levels| == k
    && Mined(levels, db, minSupport)
    && NonEmpty(levels[..k - 1])
    && (|levels[k - 1]| > 0 ==> k <= |Items(db)|)
  }

  /**
   * The loop starts after level 1: the singleton candidates `c1` of the item
   * counters, filtered into the otherwise empty `level` and appended to the
   * empty `levels`.
   */
  lemma ProgressStart(db: DataSet, minSupport: int, counter: map<int, int>, c0: Counter, c1: Counter,
                      l0: Counter, level: Counter, f0: seq<Counter>, levels: seq<Counter>)
    requires counter == ItemCounts(db) && c0 == map[] && l0 == map[] && f0 == []
    requires c1 == LevelOne(counter) + c0
    requires level == Filter(c1, minSupport) + l0
    requires levels == f0 + [level]
    ensures Progress(levels, db, minSupport, 1)
  {
    FirstLevelOf(db, minSupport, counter, level);
    ProgressOne(db, minSupport, level, levels);
  }

  /** A single correct level 1 starts the loop. */
  lemma ProgressOne(db: DataSet, minSupport: int, level: Counter, levels: seq<Counter>)
    requires IsLevel(level, db, minSupport, 1) && levels == [level]
    ensures Progress(levels, db, minSupport, 1)
  {
    LevelBound(db, minSupport, 1, level);
  }

  /** The filtered singleton candidates of the item counters are level 1. */
  lemma FirstLevelOf(db: DataSet, minSupport: int, counter: map<int, int>, level: Counter)
    requires counter == ItemCounts(db)
    requires level == Filter(LevelOne(counter) + map[], minSupport) + map[]
    ensures IsLevel(level, db, minSupport, 1)
  {
    AddEmpty(LevelOne(counter));
    AddEmpty(Filter(LevelOne(counter), minSupport));
    FirstLevel(db, minSupport);
  }

  /** A round after a non-empty level `k` adds level `k + 1`. */
  lemma ProgressStep(levels: seq<Counter>, level: Counter, db: DataSet, minSupport: int, k: nat)
    requires Progress(levels, db, minSupport, k) && |levels[k - 1]| > 0
    requires IsLevel(level, db, minSupport, k + 1)
    ensures Progress(levels + [level], db, minSupport, k + 1)
  {
    MinedAppend(levels, level, db, minSupport);
    LevelBound(db, minSupport, k + 1, level);
    assert (levels + [level])[..k] == levels;
    forall i | 0 <= i < k ensures |levels[i]| > 0 {
      if i < k - 1 {
        assert levels[..k - 1][i] == levels[i];
      }
    }
  }

  /**
   * The loop stops at the first empty level `k`: dropping it leaves the
   * levels `1..k-1`, each non-empty and mined, and no larger itemset is frequent.
   */
  lemma ProgressEnd(levels: seq<Counter>, db: DataSet, minSupport: int, k: nat)
    requires Progress(levels, db, minSupport, k) && |levels[k - 1]| == 0
    ensures Mined(levels[..k - 1], db, minSupport) && NonEmpty(levels[..k - 1])
    ensures forall n: nat, s :: n >= k ==> !IsFrequent(db, minSupport, n, s)
  {
    MinedPrefix(levels, k - 1, db, minSupport);
    forall n: nat, s | n >= k ensures !IsFrequent(db, minSupport, n, s) {
      if IsFrequent(db, minSupport, n, s) {
        FrequentBelow(db, minSupport, k, n, s);
        var y :| IsFrequent(db, minSupport, k, y);
        LevelMember(levels[k - 1], db, minSupport, k, y);
        assert false;
      }
    }
  }

  /** A level holds every frequent itemset of its size. */
  lemma LevelMember(level: Counter, db: DataSet, minSupport: int, k: nat, y: set<int>)
    requires IsLevel(level, db, minSupport, k) && IsFrequent(db, minSupport, k, y)
    ensures y in level && |level| > 0
  {
  }

  /** A non-empty level `k` puts `k` within the number of distinct items. */
  lemma LevelBound(db: DataSet, minSupport: int, k: nat, level: Counter)
    requires IsLevel(level, db, minSupport, k)
    ensures |level| > 0 ==> k <= |Items(db)|
  {
    if |level| > 0 {
      var s :| s in level;
      FrequentBound(db, minSupport, k, s);
    }
  }

  /** The items at positions `p..` lie among those at positions `i..` for `i <= p`. */
  lemma ElemsFrom(ts: seq<int>, i: nat, p: nat)
    requires i <= p
    ensures Elems(ts, p) <= Elems(ts, i)
  {
  }
}
