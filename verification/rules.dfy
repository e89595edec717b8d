/**
 * The rule finder (`class RuleFinder`): for every frequent itemset `S` of
 * two or more items and every non-empty proper subset `y` of it, the rule
 * `y -> S \ y` is strong when count(S) / count(y) reaches the minimum
 * confidence.  The rules of each level are collected into one entry of
 * `fullAnswerText`, and `numOfStrongRules` counts them all.
 */
module Rules {
  import opened Itemsets
  import opened Combinations
  import opened Levels
  import opened Mining

  /**
   * An association rule `antecedent -> consequent`, with the count of the
   * whole itemset and of the antecedent: the figures its support and its
   * confidence are printed from.
   */
  datatype Rule = Rule(antecedent: set<int>, consequent: set<int>, count: int, antecedentCount: int)

  /** The itemset a rule is drawn from. */
  function Whole(r: Rule): set<int> {
    r.antecedent + r.consequent
  }

  /**
   * `(*input)[s.size() - 1][s]`: the count that the level of `|s|`-itemsets
   * holds for `s`.  `operator[]` yields 0 for a missing key, and so does this
   * lookup; `AllLookupsHit` shows that no lookup the finder makes misses.
   */
  function Count(levels: seq<Counter>, s: set<int>): int {
    if 1 <= |s| <= |levels| && s in levels[|s| - 1] then levels[|s| - 1][s] else 0
  }

  /**
   * The confidence test `count / antecedentCount >= minConfidence`, in exact
   * arithmetic.  A zero antecedent count fails it: under the mined levels it
   * only comes with a zero whole count, and 0 / 0 compares false.
   */
  predicate Confident(count: int, antecedentCount: int, minConfidence: real) {
    antecedentCount > 0 && count as real / antecedentCount as real >= minConfidence
  }

  /** The rule formed from the itemset `s` and its subset `y` taken as the antecedent. */
  function RuleOf(levels: seq<Counter>, s: set<int>, y: set<int>): Rule {
    Rule(y, s - y, Count(levels, s), Count(levels, y))
  }

  /**
   * The strong rules drawn from the itemsets of level `i` (the
   * `(i + 1)`-itemsets): a non-empty antecedent and a non-empty consequent
   * that split an itemset of the level, with the level's counts, passing the
   * confidence test.
   */
  ghost predicate IsStrongRule(levels: seq<Counter>, i: nat, r: Rule, minConfidence: real) {
    && i < |levels|
    && Whole(r) in levels[i]
    && r.antecedent != {} && r.consequent != {}
    && r.antecedent !! r.consequent
    && r == RuleOf(levels, Whole(r), r.antecedent)
    && Confident(r.count, r.antecedentCount, minConfidence)
  }

  /** The rules emitted, in order, for the antecedents `ys` of the itemset `s`. */
  ghost function RulesFor(levels: seq<Counter>, s: set<int>, ys: seq<set<int>>, minConfidence: real): seq<Rule>
  {
    if ys == [] then []
    else
      var r := RuleOf(levels, s, ys[0]);
      (if Confident(r.count, r.antecedentCount, minConfidence) then [r] else [])
      + RulesFor(levels, s, ys[1..], minConfidence)
  }

  /** The rule of the antecedent `y` of `s` when it passes the confidence test; nothing otherwise. */
  ghost function Emit(levels: seq<Counter>, s: set<int>, y: set<int>, minConfidence: real): seq<Rule> {
    var r := RuleOf(levels, s, y);
    if Confident(r.count, r.antecedentCount, minConfidence) then [r] else []
  }

  /**
   * The rules `findStrongRulesHelper1` emits, in order, when it starts at
   * position `i` of the ascending items `ts` of `s` with the partial
   * antecedent `sub` and `k` items still to choose: those of the antecedents
   * its enumeration visits.
   */
  ghost function RulesFrom(levels: seq<Counter>, s: set<int>, ts: seq<int>, i: nat, sub: set<int>, k: nat,
                           minConfidence: real): seq<Rule>
    requires i <= |ts|
  {
    RulesFor(levels, s, Enum(ts, i, sub, k), minConfidence)
  }

  /** The text `t` is the text `t0` followed by `rules`, and the counter `n` is `n0` plus their number. */
  ghost predicate Recorded(t: seq<Rule>, t0: seq<Rule>, n: int, n0: int, rules: seq<Rule>) {
    t == t0 + rules && n == n0 + |rules|
  }

  /** The text of level `i` lists each strong rule of the level exactly once, and nothing else. */
  ghost predicate RuleText(text: seq<Rule>, levels: seq<Counter>, i: nat, minConfidence: real) {
    forall r {:trigger multiset(text)[r]} :: multiset(text)[r] == if IsStrongRule(levels, i, r, minConfidence) then 1 else 0
  }

  /**
   * While level `i` is being scanned: the text holds each strong rule of the
   * level exactly once whose itemset is in `done`, or is `s` with an
   * antecedent of fewer than `j` items, and nothing else.
   */
  ghost predicate Emitted(text: seq<Rule>, levels: seq<Counter>, i: nat, minConfidence: real,
                          done: set<set<int>>, s: set<int>, j: nat) {
    forall r {:trigger multiset(text)[r]} :: multiset(text)[r] ==
      if IsStrongRule(levels, i, r, minConfidence) && (Whole(r) in done || (Whole(r) == s && |r.antecedent| < j))
      then 1 else 0
  }

  /** The number of rules in all the level texts. */
  ghost function TotalRules(texts: seq<seq<Rule>>): nat {
    if texts == [] then 0 else TotalRules(texts[..|texts| - 1]) + |texts[|texts| - 1]|
  }

  class RuleFinder {
    /** The miner whose levels it reads: the source keeps a pointer to its `fullAnswer`. */
    const aprioriSolver: Apriori
    const minConfidence: real
    const numOfTransactions: int

    /** The rules found for the level being scanned. */
    var answerText: seq<Rule>
    /** One entry per level from the 2-itemsets on: the strong rules of that level. */
    var fullAnswerText: seq<seq<Rule>>
    var numOfStrongRules: int

    constructor (solver: Apriori)
      ensures aprioriSolver == solver
      ensures minConfidence == solver.minConfidence && numOfTransactions == solver.numOfTransactions
      ensures answerText == [] && fullAnswerText == [] && numOfStrongRules == 0
    {
      aprioriSolver := solver;
      minConfidence := solver.minConfidence;
      numOfTransactions := solver.numOfTransactions;
      answerText := [];
      fullAnswerText := [];
      numOfStrongRules := 0;
    }

    /**
     * Scans the levels from the 2-itemsets on; for each frequent itemset and
     * each antecedent size `j` in `1..|S|-1` it enumerates the antecedents,
     * and at the end of the level moves the rules found into
     * `fullAnswerText`.  With correctly mined levels every entry added lists
     * each strong rule of its level once, and the counter grows by the
     * number of rules added.
     */
    method FindStrongRules()
      requires Mined(aprioriSolver.fullAnswer, aprioriSolver.dataSet, aprioriSolver.minSupport)
      requires answerText == []
      modifies this`answerText, this`fullAnswerText, this`numOfStrongRules
      ensures answerText == []
      ensures |fullAnswerText| == |old(fullAnswerText)| + (if |aprioriSolver.fullAnswer| > 0 then |aprioriSolver.fullAnswer| - 1 else 0)
      ensures fullAnswerText[..|old(fullAnswerText)|] == old(fullAnswerText)
      ensures forall l :: |old(fullAnswerText)| <= l < |fullAnswerText| ==>
                RuleText(fullAnswerText[l], aprioriSolver.fullAnswer, l - |old(fullAnswerText)| + 1, minConfidence)
      ensures numOfStrongRules == old(numOfStrongRules) + TotalRules(fullAnswerText[|old(fullAnswerText)|..])
    {
      ghost var levels := aprioriSolver.fullAnswer;
      ghost var base := fullAnswerText;
      ghost var texts: seq<seq<Rule>> := [];
      var x := new ItemBuffer();
      var y := new ItemBuffer();
      var i := 1;
      while i < |aprioriSolver.fullAnswer|
        invariant 1 <= i && (i == 1 || i <= |levels|) && levels == aprioriSolver.fullAnswer
        invariant answerText == [] && x.items == {} && y.items == {}
        invariant fullAnswerText == base + texts && |texts| == i - 1
        invariant forall l :: 0 <= l < |texts| ==> RuleText(texts[l], levels, l + 1, minConfidence)
        invariant numOfStrongRules == old(numOfStrongRules) + TotalRules(texts)
      {
        FindRulesOfLevel(x, y, i);
        TotalRulesSnoc(texts, answerText);
        texts := texts + [answerText];
        fullAnswerText := fullAnswerText + [answerText];
        answerText := [];
        i := i + 1;
      }
      assert fullAnswerText[|base|..] == texts;
      assert fullAnswerText[..|base|] == base;
    }

    /**
     * The scan of one level `i` (the (i+1)-itemsets): for each frequent
     * itemset, the loop over its antecedent sizes.  Starting from an empty
     * text, afterwards the text lists each strong rule of the level once and
     * the counter has grown by the number of rules listed.
     */
    method FindRulesOfLevel(x: ItemBuffer, y: ItemBuffer, i: nat)
      requires x != y && x.items == {} && y.items == {}
      requires Mined(aprioriSolver.fullAnswer, aprioriSolver.dataSet, aprioriSolver.minSupport)
      requires i < |aprioriSolver.fullAnswer| && answerText == []
      modifies this`answerText, this`numOfStrongRules, x`items, y`items
      ensures x.items == {} && y.items == {}
      ensures RuleText(answerText, aprioriSolver.fullAnswer, i, minConfidence)
      ensures numOfStrongRules == old(numOfStrongRules) + |answerText|
    {
      ghost var levels := aprioriSolver.fullAnswer;
      ghost var n0 := numOfStrongRules;
      ghost var done: set<set<int>> := {};
      var rest := aprioriSolver.fullAnswer[i].Keys;
      while rest != {}
        invariant rest <= levels[i].Keys && done == levels[i].Keys - rest
        invariant x.items == {} && y.items == {}
        invariant numOfStrongRules == n0 + |answerText|
        invariant Emitted(answerText, levels, i, minConfidence, done, {}, 0)
        decreases |rest|
      {
        HasItemset(rest);
        var s :| s in rest;
        FindRulesOfItemset(s, x, y, i, done);
        done := done + {s};
        rest := rest - {s};
      }
      EmittedLevel(answerText, levels, i, minConfidence, done);
    }

    /**
     * The loop over the antecedent sizes `j` in `1..|S|-1` for one frequent
     * itemset `S` of level `i`: afterwards every strong rule whose whole
     * itemset is `S` has been recorded once, next to those of the itemsets
     * already scanned, and the counter has grown by the number recorded.
     */
    method FindRulesOfItemset(s: set<int>, x: ItemBuffer, y: ItemBuffer, ghost i: nat, ghost done: set<set<int>>)
      requires x != y && x.items == {} && y.items == {}
      requires Mined(aprioriSolver.fullAnswer, aprioriSolver.dataSet, aprioriSolver.minSupport)
      requires i < |aprioriSolver.fullAnswer| && s in aprioriSolver.fullAnswer[i] && s !in done
      requires Emitted(answerText, aprioriSolver.fullAnswer, i, minConfidence, done, {}, 0)
      modifies this`answerText, this`numOfStrongRules, x`items, y`items
      ensures x.items == {} && y.items == {}
      ensures Emitted(answerText, aprioriSolver.fullAnswer, i, minConfidence, done + {s}, {}, 0)
      ensures numOfStrongRules - old(numOfStrongRules) == |answerText| - |old(answerText)|
    {
      ghost var levels := aprioriSolver.fullAnswer;
      ghost var t0, n0 := answerText, numOfStrongRules;
      LevelSize(levels, aprioriSolver.dataSet, aprioriSolver.minSupport, i, s);
      EmittedOpen(answerText, levels, i, minConfidence, done, s);
      var j := 1;
      while j < |s|
        invariant 1 <= j && x.items == {} && y.items == {}
        invariant numOfStrongRules - n0 == |answerText| - |t0|
        invariant Emitted(answerText, levels, i, minConfidence, done, s, j)
      {
        ghost var before, counted := answerText, numOfStrongRules;
        ElementsIncreasing(s);
        FindStrongRulesHelper1(s, Elements(s), 0, x, y, j);
        EmittedSize(before, answerText, counted, numOfStrongRules, levels, i, minConfidence, done, s, j);
        j := j + 1;
      }
      EmittedClose(answerText, levels, i, minConfidence, done, s, j);
    }

    /**
     * Enumerates the `k`-item extensions of the antecedent buffer `y` by the
     * items of `xANDy` from position `start` on; for each complete antecedent
     * it looks up the two counts and, when the rule passes the confidence
     * test, counts it, forms the consequent `xANDy \ y` in `x` and records the
     * rule.  Both buffers are restored on return.
     */
    method FindStrongRulesHelper1(xANDy: set<int>, items: seq<int>, start: nat, x: ItemBuffer, y: ItemBuffer, k: nat)
      requires x != y && x.items == {}
      requires StrictlyIncreasing(items) && start <= |items| && y.items !! Elems(items, start)
      requires k >= 1 || y.items != {}
      modifies this`answerText, this`numOfStrongRules, x`items, y`items
      ensures x.items == {} && y.items == old(y.items)
      ensures Recorded(answerText, old(answerText), numOfStrongRules, old(numOfStrongRules),
                       RulesFrom(aprioriSolver.fullAnswer, xANDy, items, start, old(y.items), k, minConfidence))
      decreases k
    {
      ghost var levels := aprioriSolver.fullAnswer;
      if k == 0 {
        TestRule(xANDy, x, y);
        RulesFromLeaf(levels, xANDy, items, start, y.items, minConfidence);
      } else {
        ghost var sub, t0, n0 := y.items, answerText, numOfStrongRules;
        ghost var emitted: seq<Rule> := [];
        var item := start;
        RecordedNone(t0, n0);
        assert emitted + RulesFrom(levels, xANDy, items, start, sub, k, minConfidence)
               == RulesFrom(levels, xANDy, items, start, sub, k, minConfidence);
        while item < |items|
          invariant start <= item <= |items| && y.items == sub && x.items == {}
          invariant Recorded(answerText, t0, numOfStrongRules, n0, emitted)
          invariant emitted + RulesFrom(levels, xANDy, items, item, sub, k, minConfidence)
                    == RulesFrom(levels, xANDy, items, start, sub, k, minConfidence)
          decreases |items| - item
        {
          TakeFresh(items, start, item, sub);
          ghost var before, counted := answerText, numOfStrongRules;
          y.items := y.items + {items[item]};
          FindStrongRulesHelper1(xANDy, items, item + 1, x, y, k - 1);
          y.items := y.items - {items[item]};
          ghost var branch := RulesFrom(levels, xANDy, items, item + 1, sub + {items[item]}, k - 1, minConfidence);
          RecordedThen(t0, before, answerText, n0, counted, numOfStrongRules, emitted, branch);
          RulesFromStep(levels, xANDy, items, start, item, sub, k, minConfidence, emitted);
          emitted := emitted + branch;
          item := item + 1;
        }
        RulesFromEnd(levels, xANDy, items, start, sub, k, minConfidence, emitted);
      }
    }

    /**
     * The base case of `findStrongRulesHelper1`, for a complete antecedent
     * `y`: look up the counts of `xANDy` and of `y`; when the confidence
     * reaches the threshold, count the rule, form the consequent
     * `xANDy \ y` in `x`, record the rule and clear `x`.
     */
    method TestRule(xANDy: set<int>, x: ItemBuffer, y: ItemBuffer)
      requires x != y && x.items == {} && y.items != {}
      modifies this`answerText, this`numOfStrongRules, x`items
      ensures x.items == {}
      ensures Recorded(answerText, old(answerText), numOfStrongRules, old(numOfStrongRules),
                       Emit(aprioriSolver.fullAnswer, xANDy, y.items, minConfidence))
    {
      ghost var levels := aprioriSolver.fullAnswer;
      var count := Count(aprioriSolver.fullAnswer, xANDy);
      var antecedentCount := Count(aprioriSolver.fullAnswer, y.items);
      ghost var t0, n0 := answerText, numOfStrongRules;
      if Confident(count, antecedentCount, minConfidence) {
        numOfStrongRules := numOfStrongRules + 1;
        x.items := x.items + (xANDy - y.items);
        answerText := answerText + [Rule(y.items, x.items, count, antecedentCount)];
        x.items := {};
      }
      RulesAtLeaf(levels, xANDy, y.items, minConfidence, t0, answerText, n0, numOfStrongRules);
    }
  }

  /** At a complete antecedent `y` the helper records the rule of `y` when it passes the confidence test. */
  lemma RulesAtLeaf(levels: seq<Counter>, s: set<int>, y: set<int>, minConfidence: real,
                    t0: seq<Rule>, t1: seq<Rule>, n0: int, n1: int)
    requires Confident(Count(levels, s), Count(levels, y), minConfidence) ==>
               t1 == t0 + [Rule(y, {} + (s - y), Count(levels, s), Count(levels, y))] && n1 == n0 + 1
    requires !Confident(Count(levels, s), Count(levels, y), minConfidence) ==> t1 == t0 && n1 == n0
    ensures Recorded(t1, t0, n1, n0, Emit(levels, s, y, minConfidence))
  {
    assert {} + (s - y) == s - y;
    assert t0 + [] == t0;
  }

  /** Nothing recorded yet. */
  lemma RecordedNone(t0: seq<Rule>, n0: int)
    ensures Recorded(t0, t0, n0, n0, [])
  {
    assert t0 + [] == t0;
  }

  /** Recording two runs of rules one after the other records both. */
  lemma RecordedThen(t0: seq<Rule>, t1: seq<Rule>, t2: seq<Rule>, n0: int, n1: int, n2: int, a: seq<Rule>, b: seq<Rule>)
    requires Recorded(t1, t0, n1, n0, a) && Recorded(t2, t1, n2, n1, b)
    ensures Recorded(t2, t0, n2, n0, a + b)
  {
  }

  /**
   * One turn of the helper's loop: what remains from position `item` is the
   * branch that takes `items[item]` followed by what remains from `item + 1`.
   */
  lemma RulesFromStep(levels: seq<Counter>, s: set<int>, items: seq<int>, start: nat, item: nat, sub: set<int>, k: nat,
                      minConfidence: real, emitted: seq<Rule>)
    requires start <= item < |items| && k >= 1
    requires emitted + RulesFrom(levels, s, items, item, sub, k, minConfidence)
             == RulesFrom(levels, s, items, start, sub, k, minConfidence)
    ensures (emitted + RulesFrom(levels, s, items, item + 1, sub + {items[item]}, k - 1, minConfidence))
            + RulesFrom(levels, s, items, item + 1, sub, k, minConfidence)
            == RulesFrom(levels, s, items, start, sub, k, minConfidence)
  {
    RulesFromSplit(levels, s, items, item, sub, k, minConfidence);
  }

  /** When the loop reaches the end of the items nothing remains: all the rules have been emitted. */
  lemma RulesFromEnd(levels: seq<Counter>, s: set<int>, items: seq<int>, start: nat, sub: set<int>, k: nat,
                     minConfidence: real, emitted: seq<Rule>)
    requires start <= |items| && k >= 1
    requires emitted + RulesFrom(levels, s, items, |items|, sub, k, minConfidence)
             == RulesFrom(levels, s, items, start, sub, k, minConfidence)
    ensures emitted == RulesFrom(levels, s, items, start, sub, k, minConfidence)
  {
    assert Enum(items, |items|, sub, k) == [];
    assert emitted + [] == emitted;
  }

  /** With no item left to choose, the helper emits the rule of its partial antecedent when confident. */
  lemma RulesFromLeaf(levels: seq<Counter>, s: set<int>, ts: seq<int>, i: nat, sub: set<int>, minConfidence: real)
    requires i <= |ts|
    ensures RulesFrom(levels, s, ts, i, sub, 0, minConfidence) == Emit(levels, s, sub, minConfidence)
  {
    assert Enum(ts, i, sub, 0) == [sub];
    assert [sub][1..] == [];
    assert RulesFor(levels, s, [sub], minConfidence) == Emit(levels, s, sub, minConfidence) + [];
  }

  /** The recursion at position `i`: the rules of the antecedents that take `ts[i]`, then of those that skip it. */
  lemma RulesFromSplit(levels: seq<Counter>, s: set<int>, ts: seq<int>, i: nat, sub: set<int>, k: nat, minConfidence: real)
    requires i < |ts| && k > 0
    ensures RulesFrom(levels, s, ts, i, sub, k, minConfidence)
            == RulesFrom(levels, s, ts, i + 1, sub + {ts[i]}, k - 1, minConfidence) + RulesFrom(levels, s, ts, i + 1, sub, k, minConfidence)
  {
    RulesForAppend(levels, s, Enum(ts, i + 1, sub + {ts[i]}, k - 1), Enum(ts, i + 1, sub, k), minConfidence);
  }

  /** The rules for two runs of antecedents are those of the first run followed by those of the second. */
  lemma {:induction false} RulesForAppend(levels: seq<Counter>, s: set<int>, a: seq<set<int>>, b: seq<set<int>>, minConfidence: real)
    ensures RulesFor(levels, s, a + b, minConfidence) == RulesFor(levels, s, a, minConfidence) + RulesFor(levels, s, b, minConfidence)
    decreases |a|
  {
    if a != [] {
      assert (a + b)[0] == a[0];
      assert (a + b)[1..] == a[1..] + b;
      RulesForAppend(levels, s, a[1..], b, minConfidence);
    } else {
      assert a + b == b;
    }
  }

  /**
   * How often a rule occurs among those emitted for the antecedents `ys`:
   * as often as its antecedent occurs in `ys`, when it is the rule that
   * antecedent forms and it passes the confidence test; otherwise never.
   */
  lemma {:induction false} RulesForCount(levels: seq<Counter>, s: set<int>, ys: seq<set<int>>, minConfidence: real, r: Rule)
    ensures multiset(RulesFor(levels, s, ys, minConfidence))[r] ==
            if r == RuleOf(levels, s, r.antecedent) && Confident(r.count, r.antecedentCount, minConfidence)
            then multiset(ys)[r.antecedent] else 0
    decreases |ys|
  {
    if ys != [] {
      RulesForCount(levels, s, ys[1..], minConfidence, r);
      assert ys == [ys[0]] + ys[1..];
      assert multiset(ys)[r.antecedent] == multiset([ys[0]])[r.antecedent] + multiset(ys[1..])[r.antecedent];
    }
  }

  /** Under the mined levels an itemset of level `i` has `i + 1` items. */
  lemma LevelSize(levels: seq<Counter>, db: DataSet, minSupport: int, i: nat, s: set<int>)
    requires Mined(levels, db, minSupport) && i < |levels| && s in levels[i]
    ensures |s| == i + 1
  {
    assert IsLevel(levels[i], db, minSupport, i + 1);
  }

  /** Opening an itemset `s`: no antecedent of it has been handled, whatever the bound. */
  lemma EmittedOpen(text: seq<Rule>, levels: seq<Counter>, i: nat, minConfidence: real, done: set<set<int>>, s: set<int>)
    requires Emitted(text, levels, i, minConfidence, done, {}, 0)
    requires s !in done
    ensures Emitted(text, levels, i, minConfidence, done, s, 1)
  {
    forall r | IsStrongRule(levels, i, r, minConfidence) ensures |r.antecedent| >= 1 {
      NonEmptyCard(r.antecedent);
    }
  }

  /**
   * One run of `FindStrongRulesHelper1` from an empty antecedent adds the
   * strong rules of `s` with an antecedent of exactly `j` items, each once.
   */
  lemma EmittedSize(text: seq<Rule>, t1: seq<Rule>, n0: int, n1: int, levels: seq<Counter>, i: nat, minConfidence: real,
                    done: set<set<int>>, s: set<int>, j: nat)
    requires Emitted(text, levels, i, minConfidence, done, s, j)
    requires i < |levels| && s in levels[i] && s !in done && 1 <= j < |s|
    requires Recorded(t1, text, n1, n0, RulesFrom(levels, s, Elements(s), 0, {}, j, minConfidence))
    ensures Emitted(t1, levels, i, minConfidence, done, s, j + 1)
    ensures n1 - n0 == |t1| - |text|
  {
    var added := RulesFor(levels, s, Enum(Elements(s), 0, {}, j), minConfidence);
    ElementsIncreasing(s);
    ElementsCover(s);
    forall r ensures multiset(added)[r] ==
                       if IsStrongRule(levels, i, r, minConfidence) && Whole(r) == s && |r.antecedent| == j then 1 else 0
    {
      RulesForCount(levels, s, Enum(Elements(s), 0, {}, j), minConfidence, r);
      EnumSubsets(Elements(s), j, r.antecedent);
      SplitRule(levels, i, minConfidence, s, j, r);
    }
    assert multiset(text + added) == multiset(text) + multiset(added);
  }

  /**
   * The rule formed by an antecedent of `j` items of `s`, `1 <= j < |s|`, is
   * exactly a strong rule of the level split from `s` with such an antecedent.
   */
  lemma SplitRule(levels: seq<Counter>, i: nat, minConfidence: real, s: set<int>, j: nat, r: Rule)
    requires i < |levels| && s in levels[i] && 1 <= j < |s|
    ensures (r == RuleOf(levels, s, r.antecedent) && Confident(r.count, r.antecedentCount, minConfidence)
             && r.antecedent <= s && |r.antecedent| == j)
         == (IsStrongRule(levels, i, r, minConfidence) && Whole(r) == s && |r.antecedent| == j)
  {
    if r == RuleOf(levels, s, r.antecedent) && r.antecedent <= s && |r.antecedent| == j {
      assert Whole(r) == s;
      SubsetCard(r.antecedent, s);
    }
  }

  /** Closing `s`: every strong rule of `s` has an antecedent of fewer than `|s|` items. */
  lemma EmittedClose(text: seq<Rule>, levels: seq<Counter>, i: nat, minConfidence: real, done: set<set<int>>, s: set<int>, j: nat)
    requires Emitted(text, levels, i, minConfidence, done, s, j) && j >= |s|
    ensures Emitted(text, levels, i, minConfidence, done + {s}, {}, 0)
  {
    forall r | IsStrongRule(levels, i, r, minConfidence) && Whole(r) == s ensures |r.antecedent| < j {
      ProperPart(r);
    }
  }

  /** Once every itemset of the level is done, the text is the level's rule text. */
  lemma EmittedLevel(text: seq<Rule>, levels: seq<Counter>, i: nat, minConfidence: real, done: set<set<int>>)
    requires i < |levels| && done == levels[i].Keys
    requires Emitted(text, levels, i, minConfidence, done, {}, 0)
    ensures RuleText(text, levels, i, minConfidence)
  {
  }

  /** One more level text adds its rules to the total. */
  lemma TotalRulesSnoc(texts: seq<seq<Rule>>, text: seq<Rule>)
    ensures TotalRules(texts + [text]) == TotalRules(texts) + |text|
  {
    assert (texts + [text])[..|texts|] == texts;
  }

  /**
   * Under the mined levels, every lookup the finder makes hits: for a
   * frequent itemset `s` of level `i` and any non-empty `y` drawn from it,
   * strong or not, `y` is a key of the level of `|y|`-itemsets, so the
   * finder's `operator[]` never inserts, and `Count` gives its support.
   */
  lemma AllLookupsHit(levels: seq<Counter>, db: DataSet, minSupport: int, i: nat, s: set<int>, y: set<int>)
    requires Mined(levels, db, minSupport) && i < |levels| && s in levels[i]
    requires y != {} && y <= s
    ensures 1 <= |y| <= |levels| && y in levels[|y| - 1]
    ensures Count(levels, y) == Support(db, y) && Count(levels, s) == Support(db, s)
  {
    assert IsLevel(levels[i], db, minSupport, i + 1);
    FrequentDownClosed(db, minSupport, i + 1, s, y);
    NonEmptyCard(y);
    assert IsLevel(levels[|y| - 1], db, minSupport, |y|);
    FrequentDownClosed(db, minSupport, i + 1, s, s);
  }

  /**
   * Under the mined levels, both counts a strong rule carries are keys of
   * their levels (for every antecedent, strong or not, see `AllLookupsHit`),
   * they are the support counts of the whole itemset and of the antecedent,
   * and the whole itemset is supported no more often than the antecedent.
   */
  lemma LookupsPresent(levels: seq<Counter>, db: DataSet, minSupport: int, i: nat, r: Rule, minConfidence: real)
    requires Mined(levels, db, minSupport) && IsStrongRule(levels, i, r, minConfidence)
    ensures |Whole(r)| == i + 1 && Whole(r) in levels[i]
    ensures 1 <= |r.antecedent| <= i && r.antecedent in levels[|r.antecedent| - 1]
    ensures r.count == Support(db, Whole(r)) && r.antecedentCount == Support(db, r.antecedent)
    ensures r.count <= r.antecedentCount
  {
    var s := Whole(r);
    assert IsLevel(levels[i], db, minSupport, i + 1);
    FrequentDownClosed(db, minSupport, i + 1, s, r.antecedent);
    ProperPart(r);
    NonEmptyCard(r.antecedent);
    var a := |r.antecedent|;
    assert IsLevel(levels[a - 1], db, minSupport, a);
    SupportAntiMonotone(db, r.antecedent, s);
  }

  /**
   * A strong rule of a mined level reaches the minimum confidence as a
   * ratio of support counts, and that ratio is at most 1.
   */
  lemma StrongRuleConfidence(levels: seq<Counter>, db: DataSet, minSupport: int, i: nat, r: Rule, minConfidence: real)
    requires Mined(levels, db, minSupport) && IsStrongRule(levels, i, r, minConfidence)
    ensures Support(db, r.antecedent) > 0
    ensures minConfidence <= Support(db, Whole(r)) as real / Support(db, r.antecedent) as real <= 1.0
  {
    LookupsPresent(levels, db, minSupport, i, r, minConfidence);
    RatioAtMostOne(r.count, r.antecedentCount);
  }

  /** A non-empty itemset has at least one item. */
  lemma NonEmptyCard(s: set<int>)
    requires s != {}
    ensures |s| >= 1
  {
    HasItem(s);
    var x :| x in s;
    assert {x} <= s;
    SubsetCard({x}, s);
  }

  /** The antecedent of a rule with a non-empty consequent disjoint from it has fewer items than the whole itemset. */
  lemma ProperPart(r: Rule)
    requires r.consequent != {} && r.antecedent !! r.consequent
    ensures |r.antecedent| < |Whole(r)|
  {
    HasItem(r.consequent);
    var c :| c in r.consequent;
    assert r.antecedent <= Whole(r) - {c};
    SubsetCard(r.antecedent, Whole(r) - {c});
    RemoveCard(Whole(r), c);
  }

  /** A count no larger than a positive count gives a ratio of at most 1. */
  lemma RatioAtMostOne(a: int, b: int)
    requires 0 <= a <= b && b > 0
    ensures a as real / b as real <= 1.0
  {
    var q := a as real / b as real;
    assert q * b as real == a as real;
  }
}
