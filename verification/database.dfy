/**
 * The transaction store (`struct Database`).  Reading and parsing the file is
 * outside the model: the constructor receives the transactions already
 * parsed, and `ReadDatabase` keeps the part of `readDatabase` that stores each
 * transaction and counts its items.
 */
module TransactionStore {
  import opened Itemsets

  /** For every item that occurs in the store, the number of transactions containing it. */
  ghost function ItemCounts(db: DataSet): map<int, int> {
    map x | x in Items(db) :: Support(db, {x})
  }

  /** The store grows by one transaction: its items join the item set. */
  lemma ItemsAppend(db: DataSet, t: set<int>)
    ensures Items(db + [t]) == Items(db) + t
  {
    assert (db + [t])[..|db|] == db;
  }

  class Database {
    var dataSet: DataSet
    var itemsCounter: map<int, int>
    var numOfTransactions: int

    /** The item counters and the transaction counter agree with the stored transactions. */
    ghost predicate Valid()
      reads this
    {
      numOfTransactions == |dataSet| && itemsCounter == ItemCounts(dataSet)
    }

    constructor (transactions: DataSet)
      ensures Valid() && dataSet == transactions
    {
      dataSet := [];
      itemsCounter := map[];
      numOfTransactions := 0;
      new;
      assert Items([]) == {};
      assert ItemCounts([]).Keys == {};
      ReadDatabase(transactions);
    }

    /** The loop of `readDatabase` over already-parsed lines. */
    method ReadDatabase(transactions: DataSet)
      requires Valid()
      modifies this
      ensures Valid() && dataSet == old(dataSet) + transactions
    {
      var i := 0;
      while i < |transactions|
        invariant 0 <= i <= |transactions|
        invariant Valid() && dataSet == old(dataSet) + transactions[..i]
      {
        StoreTransaction(transactions[i]);
        assert transactions[..i + 1] == transactions[..i] + [transactions[i]];
        i := i + 1;
      }
      assert transactions[..i] == transactions;
    }

    /**
     * The body of that loop: store the transaction, add one to the counter
     * of each of its items (a missing counter starts at 0, as `operator[]`
     * inserts it), and count the line.
     */
    method StoreTransaction(transaction: set<int>)
      requires Valid()
      modifies this
      ensures Valid() && dataSet == old(dataSet) + [transaction]
    {
      ghost var before, counted := dataSet, itemsCounter;
      dataSet := dataSet + [transaction];
      var rest := transaction;
      while rest != {}
        invariant rest <= transaction
        invariant dataSet == before + [transaction] && numOfTransactions == |before|
        invariant forall x :: x in itemsCounter <==> x in counted || x in transaction - rest
        invariant forall x :: x in itemsCounter ==>
                    itemsCounter[x] == (if x in counted then counted[x] else 0) + (if x in transaction - rest then 1 else 0)
        decreases |rest|
      {
        var item := Min(rest);
        itemsCounter := itemsCounter[item := (if item in itemsCounter then itemsCounter[item] else 0) + 1];
        rest := rest - {item};
      }
      numOfTransactions := numOfTransactions + 1;
      CountsAfterAppend(before, transaction, counted, itemsCounter);
    }
  }

  /** Counters that are one up on exactly the items of `t` are the counts of the grown store. */
  lemma CountsAfterAppend(db: DataSet, t: set<int>, counted: map<int, int>, counter: map<int, int>)
    requires counted == ItemCounts(db)
    requires forall x :: x in counter <==> x in counted || x in t
    requires forall x :: x in counter ==>
               counter[x] == (if x in counted then counted[x] else 0) + (if x in t then 1 else 0)
    ensures counter == ItemCounts(db + [t])
  {
    ItemsAppend(db, t);
    var counts := ItemCounts(db + [t]);
    forall x ensures x in counter <==> x in counts {
    }
    assert counter.Keys == counts.Keys;
    forall x | x in counter ensures counter[x] == counts[x] {
      SupportAppend(db, t, {x});
      ItemsSupport(db, x);
    }
  }
}
