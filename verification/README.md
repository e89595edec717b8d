# Apriori mining engine

A Dafny model of the mining engine of `AprioriImplementation.cpp`. This is
the classic Apriori algorithm, which finds frequent itemsets in a store of
transactions and then derives strong association rules from them.

- **Items, itemsets and transactions.** An item is an `int`. An itemset and
  a transaction are each a `set<int>`. The store (`DataSet`) is the sequence
  of transactions in file order.
- **Iteration order.** A `std::set` is iterated in ascending order, and the
  model reproduces that order with the sorted sequence `Elements(s)`.
- **The tables.** The candidate table and the frequent table
  (`SetsCounter`) are `map<set<int>, int>` fields of the class `Apriori`,
  and its methods update them in place.
- **Support.** `Support(db, s)` is the reference definition the contracts
  use. It is the number of transactions of `db` that contain every item of
  `s`.

The modules follow the program's structure:

- `Binomial` (binomial.dfy) is `nChoosek`. The loop is proved against
  Pascal's rule. Each of its divisions is proved to be exact.
- `TransactionStore` (database.dfy) is `struct Database`. Its item-counting
  loop is proved to leave every item counter equal to the number of
  transactions containing that item.
- `Itemsets` (itemsets.dfy) holds the shared vocabulary:
  - support;
  - ascending element sequences;
  - `ItemBuffer`, the `std::set<int>&` buffers that the recursive helpers
    extend and restore.
- `Combinations` (combinations.dfy) is the "choose `k` from position `i`
  on" recursion that `processCandidatesHelper1` and
  `findStrongRulesHelper1` share. It visits every `k`-subset exactly once,
  and the number it visits is the binomial coefficient.
- `Levels` (levels.dfy) states what a mined level is and what the join
  produces. A mined level is exactly the frequent `n`-itemsets with their
  support counts. An itemset is frequent when all its items occur in the
  store and its support reaches `minSupport`. The first condition matters
  only when `minSupport` is 0 or less: the source never builds a candidate
  from an item that no transaction holds. The lemmas prove that the join is sound and complete, and
  that frequent itemsets are closed downward.
- `Mining` (mining.dfy) is `class Apriori`: seeding, filtering, candidate
  generation, the two counting strategies and the level loop.
- `Rules` (rules.dfy) is `class RuleFinder`. Each strong rule found is kept
  as a tuple: antecedent `y`, consequent `S \ y`, and the two counts. The
  per-level text holds these tuples.

## Model

| member | source | states |
|---|---|---|
| Binomial.NChooseK | AprioriImplementation.cpp:136-148 | returns C(n, k) by Pascal's rule; 0 when k > n; 1 when k = 0 or k = n |
| Binomial.StepDividesExactly | AprioriImplementation.cpp:143-146 | each `result *= ++k; result /= r++` step divides without remainder and gives the next binomial coefficient |
| Binomial.ChooseSymmetric | AprioriImplementation.cpp:139 | replacing k by n - k does not change C(n, k) |
| Binomial.ChooseAbove | AprioriImplementation.cpp:138 | C(n, k) = 0 when k > n |
| Binomial.ChooseAll | AprioriImplementation.cpp:141-147 | C(n, n) = 1: once k has been raised to n the loop does not run and 1 is returned |
| TransactionStore.Database.constructor | AprioriImplementation.cpp:34-40 | an empty store that has read the given transactions has counters consistent with them |
| TransactionStore.Database.ReadDatabase | AprioriImplementation.cpp:196-204 | the transactions are appended in order; every item counter equals the number of stored transactions containing the item; the transaction counter equals the number stored |
| TransactionStore.Database.StoreTransaction | AprioriImplementation.cpp:198-203 | one transaction is appended, each of its items' counters goes up by one (a missing counter starts at 0), and the counters stay consistent with the store |
| TransactionStore.CountsAfterAppend | AprioriImplementation.cpp:199-201 | counters one up on exactly the items of the new transaction are the item counts of the grown store |
| Mining.Apriori.constructor | AprioriImplementation.cpp:74-83 | the miner reads the store's transactions and counters, its tables start empty and `done` is false |
| Mining.Apriori.CreateInitialCandidates | AprioriImplementation.cpp:232-240 | adds one candidate `{x}` per item counter, carrying that item's count; an itemset already present keeps its entry |
| Levels.FirstLevel | AprioriImplementation.cpp:232-248 | filtering the singleton candidates of the item counts by `minSupport` gives exactly the frequent 1-itemsets with their support counts |
| Mining.Apriori.CreateLargestSets | AprioriImplementation.cpp:242-253 | `largestSets` gains exactly the candidates whose count reaches `minSupport`, with their counts; `candidates` is emptied; `done` holds iff `largestSets` is empty; `fullAnswer` grows by that one level |
| Mining.Apriori.GenerateCandidates | AprioriImplementation.cpp:285-311 | a key is a candidate afterwards iff it was one before or it is a join of the frequent sets; new candidates carry count 0 and old counts are unchanged; `largestSets` is emptied |
| Mining.Apriori.AllPreviousItems | AprioriImplementation.cpp:289-291 | the result is the union of the items of all sets in `largestSets` |
| Mining.Apriori.JoinPrevSet | AprioriImplementation.cpp:298-308 | after one `prevSet`, the candidates are the earlier ones plus every `prevSet + {newInt}` (`newInt` new to `prevSet`) that passes the closure check, each added once with count 0 |
| Mining.Apriori.GenerateCandidatesHelper | AprioriImplementation.cpp:313-322 | returns true iff every one-element-removed subset of `newCandidate + {newInt}` is in `largestSets`; on true the buffer holds the joined set; on false it holds a missing subset |
| Levels.JoinedSound | AprioriImplementation.cpp:292-296 | every join of `n`-itemsets has `n + 1` items, and all its one-element-removed subsets are among the joined sets |
| Levels.JoinedComplete | AprioriImplementation.cpp:292-296 | every `(n + 1)`-itemset whose one-element-removed subsets are all present is among the joins |
| Levels.FrequentClosed | AprioriImplementation.cpp:313-322 | a frequent `(n + 1)`-itemset passes the closure check against the level of frequent `n`-itemsets |
| Levels.FrequentDownClosed | AprioriImplementation.cpp:294 | every subset of a frequent itemset is frequent at its own size |
| Mining.Apriori.ProcessCandidates | AprioriImplementation.cpp:324-339 | every candidate's count grows by exactly its support in the store; the key set is unchanged; this holds whichever helper the line-331 test picks for each transaction |
| Mining.SkippedTransaction | AprioriImplementation.cpp:329 | a transaction with fewer than `k` items contains no candidate of size `k`, so skipping it counts it correctly |
| Mining.EnumeratedTransaction | AprioriImplementation.cpp:331-333 | enumerating the `k`-subsets of a transaction adds exactly its support to every candidate of size `k` |
| Mining.ScannedTransaction | AprioriImplementation.cpp:334-335 | testing every candidate for containment adds exactly its support to every candidate |
| Mining.Apriori.ProcessCandidatesHelper1 | AprioriImplementation.cpp:341-357 | each candidate's count grows by the number of times the enumeration visits it, and no key is added; the buffer `subSet` is restored on return |
| Combinations.EnumSubsets | AprioriImplementation.cpp:344-355 | from position 0 with an empty partial subset, the recursion visits each `k`-subset of the items exactly once and nothing else |
| Combinations.EnumLength | AprioriImplementation.cpp:331 | the recursion visits C(\|items\| - i, k) subsets, the number `nChoosek` is asked for |
| Combinations.VisitedAll | AprioriImplementation.cpp:351-355 | the loop over `item` from `start` to the end visits exactly the whole enumeration, in order |
| Mining.Apriori.ProcessCandidatesHelper2 | AprioriImplementation.cpp:359-375 | keys unchanged; each candidate's count goes up by 1 iff the transaction contains every one of its items, and by 0 otherwise |
| Levels.NextLevel | AprioriImplementation.cpp:278-280 | counting the joins of level `n` and keeping those reaching `minSupport` yields exactly level `n + 1` |
| Mining.RoundLevel | AprioriImplementation.cpp:278-280 | the joins entered with count 0, counted against the store and then filtered are exactly the frequent `k`-itemsets |
| Mining.Apriori.MineLevel | AprioriImplementation.cpp:277-280 | one round turns the level of frequent `(k - 1)`-itemsets into the level of frequent `k`-itemsets, appended to `fullAnswer`, with `done` iff it is empty |
| Mining.Apriori.MineLevels | AprioriImplementation.cpp:276-282 | from level `k` on, the loop stops at the first empty level and drops it; afterwards `done` holds, both tables are empty, `fullAnswer[i]` holds exactly the frequent `(i + 1)`-itemsets, no level is empty and no larger itemset is frequent |
| Mining.Apriori.FindFrequentItemSets | AprioriImplementation.cpp:270-283 | on return `done` holds, both tables are empty, `fullAnswer[i]` holds exactly the frequent `(i + 1)`-itemsets with their support counts; no level is empty; no larger itemset is frequent |
| Mining.ProgressStep | AprioriImplementation.cpp:276-281 | a round after a non-empty level `k` adds a correct level `k + 1` and keeps `k + 1` within the number of distinct items, which bounds the loop |
| Mining.ProgressEnd | AprioriImplementation.cpp:281-282 | after the first empty level is dropped, the remaining levels are mined and non-empty, and no itemset of that size or larger is frequent |
| Levels.FrequentBound | AprioriImplementation.cpp:276 | a frequent `n`-itemset exists only while `n` does not exceed the number of distinct items |
| Rules.RuleFinder.constructor | AprioriImplementation.cpp:111-117 | the finder reads the miner's levels, confidence threshold and transaction count, with no rules and a zero counter |
| Rules.RuleFinder.FindStrongRules | AprioriImplementation.cpp:399-411 | one text entry per level from the 2-itemsets on; each entry lists every strong rule of its level exactly once and nothing else; the counter grows by the number of rules listed |
| Rules.RuleFinder.FindRulesOfLevel | AprioriImplementation.cpp:403-407 | the text of one level lists each strong rule of that level exactly once; the counter grows by its length |
| Rules.RuleFinder.FindRulesOfItemset | AprioriImplementation.cpp:404-406 | after one frequent itemset `S`, every strong rule drawn from `S` has been added once, and the counter grows by the number added |
| Rules.EmittedSize | AprioriImplementation.cpp:404-405 | one enumeration with antecedent size `j` adds, once each, exactly the strong rules of `S` whose antecedent has `j` items |
| Rules.SplitRule | AprioriImplementation.cpp:404 | for `1 <= j < \|S\|`, the rule formed from a `j`-item subset of `S` is a strong rule split from `S` iff it passes the confidence test |
| Rules.RuleFinder.FindStrongRulesHelper1 | AprioriImplementation.cpp:413-429 | appends, in visiting order, the rule of every enumerated antecedent that passes the confidence test, and raises the counter by the number appended; both buffers are restored |
| Rules.RuleFinder.TestRule | AprioriImplementation.cpp:414-421 | for the complete antecedent `y`, records `y -> xANDy \ y` with its counts and counts it iff count(xANDy) / count(y) reaches `minConfidence`; `x` is left empty |
| Rules.RulesForCount | AprioriImplementation.cpp:422-428 | a rule is emitted as often as its antecedent is enumerated when it is the rule that antecedent forms and it is confident, and never otherwise |
| Rules.AllLookupsHit | AprioriImplementation.cpp:415 | under mined levels, for a frequent `S` and every non-empty `y` drawn from it, strong or not, both `operator[]` lookups find their key, so none inserts, and `Count` gives the support counts |
| Rules.LookupsPresent | AprioriImplementation.cpp:415 | under mined levels, both `operator[]` lookups of a strong rule find their key, so none inserts; the counts are the support counts; count(S) <= count(y) |
| Rules.StrongRuleConfidence | AprioriImplementation.cpp:415-416 | a strong rule's antecedent has positive support, and support(S) / support(y) lies between `minConfidence` and 1 |

## Left out

- Reading and parsing the transaction file (`readDatabase`'s file handling,
  `parseTransaction`) is file I/O. `Database` receives the transactions
  already parsed.
- `main` is left out. It handles the command line, the timer and memory
  management.
- The float-to-integer conversion of the minimum support (line 79) is left
  out. `Apriori` takes `minSupport` as an integer.
- Text and output are left out: `set2string`, `extractFrequentItemSetsText`,
  `findStrongRulesHelper2`, `writeFrequentItemSetsInFile`,
  `writeStrongRulesInFile`, both `reportTheResults`, and the two lines the
  `Database` constructor prints (lines 38-39). The text of a level
  is modelled as the list of its rule tuples. The dropping of the final
  newline at line 408 therefore has no counterpart.
- Rules.Confident: the confidence is a `float` ratio in the source and an
  exact `real` ratio here. IEEE rounding is not modelled. A zero antecedent
  count fails the test. Under mined levels that case only arises with a
  zero whole count, where the source computes 0/0, which compares false.
- Binomial.NChooseK: works on unbounded naturals. It does not model the
  `unsigned int` overflow of the intermediate product, so for large
  transactions the strategy choice at line 331 may differ from the source.
  `ProcessCandidates` is proved correct whichever helper is chosen.
- Mining.Apriori.GenerateCandidatesHelper: models the intended meaning of
  the loop at lines 316-319. The source erases and reinserts the element
  that its range-for is standing on. Here every item is tried once, and the
  buffer holds the joined set again after each successful lookup.
- Rules.Count: `std::map::operator[]` at line 415 inserts a zero entry for
  a missing key. `Count` returns 0 and does not insert. `AllLookupsHit`
  shows that under mined levels no lookup of the finder misses, whether or
  not the rule then passes the confidence test.
- The iteration order of a `std::map` over its keys is not modelled.
  The loops over the keys of a `SetsCounter` pick the next key freely.
  The loops over items take them in ascending order, as the source does.
  `FindStrongRules` states each level's text as a multiset of rules, so no
  result depends on the order of the keys.
- Mining.Apriori.FindFrequentItemSets: requires the candidate and frequent
  tables to be empty on entry, as they are after construction. The method
  leaves both tables empty again, so a second call is modelled and yields
  the same levels.
- Rules.RuleFinder.FindStrongRules: requires the rule text being built to
  be empty on entry, as it is after construction, and the miner's levels to
  be the mined ones.
- The loops that the model gives their own methods are parts of the
  methods above:
  - `MineLevels` is lines 276-282;
  - `MineLevel` is lines 277-280;
  - `AllPreviousItems` is lines 289-291;
  - `JoinPrevSet` is lines 298-308;
  - `TestRule` is lines 414-421;
  - `FindRulesOfLevel` is lines 403-407;
  - `FindRulesOfItemset` is lines 404-406.
- The helpers' `set<int>::iterator start` is modelled as a position in the
  ascending item sequence. The recursive call starts at the position after
  the item just taken, which is where `++start` points.
