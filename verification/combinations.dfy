/**
 * The recursive "choose k from position i onward" enumeration shared by
 * `processCandidatesHelper1` and `findStrongRulesHelper1`: the helper holds
 * a partial subset `sub`, and for each position `p >= i` adds `ts[p]` and
 * recurses from `p + 1` with one fewer item to choose.
 */
module Combinations {
  import opened Itemsets
  import opened Binomial

  /**
   * The subsets visited, in visiting order, when the recursion starts at
   * position `i` of the ascending sequence `ts` with partial subset `sub` and
   * `k` items still to choose.
   */
  function Enum(ts: seq<int>, i: nat, sub: set<int>, k: nat): seq<set<int>>
    requires i <= |ts|
    decreases |ts| - i, k
  {
    if k == 0 then [sub]
    else if i == |ts| then []
    else Enum(ts, i + 1, sub + {ts[i]}, k - 1) + Enum(ts, i + 1, sub, k)
  }

  /**
   * What the loop of the helper has visited once it has handled positions
   * `i..p-1`: for each such position `q`, the enumeration that takes `ts[q]`
   * and continues from `q + 1`.
   */
  function Visited(ts: seq<int>, i: nat, p: nat, sub: set<int>, k: nat): seq<set<int>>
    requires i <= p <= |ts| && k >= 1
    decreases p - i
  {
    if p == i then [] else Visited(ts, i, p - 1, sub, k) + Enum(ts, p, sub + {ts[p - 1]}, k - 1)
  }

  /** The loop's visited part followed by what remains from position `p` is the whole enumeration. */
  lemma {:induction false} VisitedThenRest(ts: seq<int>, i: nat, p: nat, sub: set<int>, k: nat)
    requires i <= p <= |ts| && k >= 1
    ensures Enum(ts, i, sub, k) == Visited(ts, i, p, sub, k) + Enum(ts, p, sub, k)
    decreases p - i
  {
    if p > i {
      VisitedThenRest(ts, i, p - 1, sub, k);
      assert Enum(ts, p - 1, sub, k) == Enum(ts, p, sub + {ts[p - 1]}, k - 1) + Enum(ts, p, sub, k);
    }
  }

  /** Once the loop has run to the end of `ts`, it has visited the whole enumeration. */
  lemma VisitedAll(ts: seq<int>, i: nat, sub: set<int>, k: nat)
    requires i <= |ts| && k >= 1
    ensures Visited(ts, i, |ts|, sub, k) == Enum(ts, i, sub, k)
  {
    VisitedThenRest(ts, i, |ts|, sub, k);
  }

  /** Positions `i..` of `ts` are item `ts[i]` and positions `i+1..`. */
  lemma ElemsStep(ts: seq<int>, i: nat)
    requires i < |ts| && StrictlyIncreasing(ts)
    ensures Elems(ts, i) == {ts[i]} + Elems(ts, i + 1)
    ensures ts[i] !in Elems(ts, i + 1)
  {
    assert ts[i] in Elems(ts, i);
    forall x | x in Elems(ts, i) ensures x in {ts[i]} + Elems(ts, i + 1) {
      var j :| i <= j < |ts| && ts[j] == x;
      if j > i { assert x in Elems(ts, i + 1); }
    }
    forall x | x in Elems(ts, i + 1) ensures x in Elems(ts, i) && x != ts[i] {
      var j :| i + 1 <= j < |ts| && ts[j] == x;
      assert ItemAt(ts, i) < ItemAt(ts, j);
    }
  }

  /** Positions `|ts|..` hold no item. */
  lemma ElemsEnd(ts: seq<int>)
    ensures Elems(ts, |ts|) == {}
  {
  }

  /** Set reasoning for the branch of the recursion that takes item `x`. */
  lemma TakeStep(c: set<int>, sub: set<int>, x: int, rest: set<int>, k: nat)
    requires k >= 1 && x in c && x !in sub && x !in rest
    ensures (sub + {x} <= c && c - (sub + {x}) <= rest && |c - (sub + {x})| == k - 1)
        == (sub <= c && c - sub <= {x} + rest && |c - sub| == k)
    ensures !(c - sub <= rest)
  {
    assert c - (sub + {x}) == (c - sub) - {x};
    assert x in c - sub;
    RemoveCard(c - sub, x);
  }

  /** Set reasoning for the branch of the recursion that skips item `x`. */
  lemma SkipStep(c: set<int>, sub: set<int>, x: int, rest: set<int>, k: nat)
    requires x !in c
    ensures !(sub + {x} <= c)
    ensures (c - sub <= rest) == (c - sub <= {x} + rest)
  {
  }

  /**
   * The enumeration visits exactly the sets `sub + X` where `X` is a
   * `k`-element subset of the items at positions `i..`, each exactly once.
   */
  lemma {:induction false} EnumCount(ts: seq<int>, i: nat, sub: set<int>, k: nat, c: set<int>)
    requires i <= |ts| && StrictlyIncreasing(ts)
    requires sub !! Elems(ts, i)
    ensures Occurs(Enum(ts, i, sub, k), c) ==
            if sub <= c && c - sub <= Elems(ts, i) && |c - sub| == k then 1 else 0
    decreases |ts| - i, k
  {
    if k == 0 {
      EnumCountDone(ts, i, sub, c);
    } else if i == |ts| {
      EnumCountEnd(ts, sub, k, c);
    } else {
      ElemsStep(ts, i);
      DisjointStep(sub, ts[i], Elems(ts, i + 1));
      EnumCount(ts, i + 1, sub + {ts[i]}, k - 1, c);
      EnumCount(ts, i + 1, sub, k, c);
      EnumCountStep(ts, i, sub, k, c);
    }
  }

  /** The inductive step of `EnumCount`, from the counts of the two branches of the recursion. */
  lemma EnumCountStep(ts: seq<int>, i: nat, sub: set<int>, k: nat, c: set<int>)
    requires i < |ts| && k > 0 && StrictlyIncreasing(ts)
    requires sub !! Elems(ts, i)
    requires Occurs(Enum(ts, i + 1, sub + {ts[i]}, k - 1), c) ==
             if sub + {ts[i]} <= c && c - (sub + {ts[i]}) <= Elems(ts, i + 1) && |c - (sub + {ts[i]})| == k - 1 then 1 else 0
    requires Occurs(Enum(ts, i + 1, sub, k), c) ==
             if sub <= c && c - sub <= Elems(ts, i + 1) && |c - sub| == k then 1 else 0
    ensures Occurs(Enum(ts, i, sub, k), c) ==
            if sub <= c && c - sub <= Elems(ts, i) && |c - sub| == k then 1 else 0
  {
    var x := ts[i];
    var rest := Elems(ts, i + 1);
    ElemsStep(ts, i);
    DisjointStep(sub, x, rest);
    var taken, skipped := Enum(ts, i + 1, sub + {x}, k - 1), Enum(ts, i + 1, sub, k);
    OccursAppend(taken, skipped, c);
    CountStep(c, sub, x, rest, Elems(ts, i), k,
              Occurs(Enum(ts, i, sub, k), c), Occurs(taken, c), Occurs(skipped, c));
  }

  /** A partial subset apart from `{x} + rest` stays apart from `rest` with or without `x`. */
  lemma DisjointStep(sub: set<int>, x: int, rest: set<int>)
    requires sub !! {x} + rest && x !in rest
    ensures x !in sub && sub !! rest && sub + {x} !! rest
  {
  }

  /**
   * The inductive step of `EnumCount` as set reasoning: the count splits
   * into the branch that takes item `x` and the branch that skips it.
   */
  lemma CountStep(c: set<int>, sub: set<int>, x: int, rest: set<int>, ahead: set<int>, k: nat,
                  whole: nat, taken: nat, skipped: nat)
    requires k >= 1 && ahead == {x} + rest && x !in rest && x !in sub
    requires whole == taken + skipped
    requires taken == if sub + {x} <= c && c - (sub + {x}) <= rest && |c - (sub + {x})| == k - 1 then 1 else 0
    requires skipped == if sub <= c && c - sub <= rest && |c - sub| == k then 1 else 0
    ensures whole == if sub <= c && c - sub <= ahead && |c - sub| == k then 1 else 0
  {
    if x in c {
      TakeStep(c, sub, x, rest, k);
    } else {
      SkipStep(c, sub, x, rest, k);
    }
  }

  /** With nothing left to choose, the enumeration visits `sub` alone. */
  lemma EnumCountDone(ts: seq<int>, i: nat, sub: set<int>, c: set<int>)
    requires i <= |ts|
    ensures Occurs(Enum(ts, i, sub, 0), c) ==
            if sub <= c && c - sub <= Elems(ts, i) && |c - sub| == 0 then 1 else 0
  {
    if sub <= c && |c - sub| == 0 {
      assert c - sub == {};
      assert c == sub;
    }
  }

  /** Past the last position, with items still to choose, the enumeration visits nothing. */
  lemma EnumCountEnd(ts: seq<int>, sub: set<int>, k: nat, c: set<int>)
    requires k > 0
    ensures Occurs(Enum(ts, |ts|, sub, k), c) ==
            if sub <= c && c - sub <= Elems(ts, |ts|) && |c - sub| == k then 1 else 0
  {
    ElemsEnd(ts);
    if c - sub <= Elems(ts, |ts|) {
      assert c - sub == {};
    }
  }

  /** How many times `c` occurs in `s`. */
  function Occurs(s: seq<set<int>>, c: set<int>): (n: nat)
    ensures n <= |s|
  {
    if s == [] then 0 else (if s[0] == c then 1 else 0) + Occurs(s[1..], c)
  }

  /** Occurrences in a concatenation add up. */
  lemma {:induction false} OccursAppend(front: seq<set<int>>, back: seq<set<int>>, c: set<int>)
    ensures Occurs(front + back, c) == Occurs(front, c) + Occurs(back, c)
  {
    if front != [] {
      assert (front + back)[1..] == front[1..] + back;
      OccursAppend(front[1..], back, c);
    } else {
      assert front + back == back;
    }
  }

  /** Occurrences are the multiplicity in the sequence's multiset. */
  lemma {:induction false} OccursMultiset(s: seq<set<int>>, c: set<int>)
    ensures Occurs(s, c) == multiset(s)[c]
  {
    if s != [] {
      assert s == [s[0]] + s[1..];
      assert multiset(s) == multiset([s[0]]) + multiset(s[1..]);
      OccursMultiset(s[1..], c);
    }
  }

  /**
   * Starting from an empty partial subset at position 0, the enumeration
   * visits each `k`-subset of the items of `ts` exactly once and nothing else.
   */
  lemma EnumSubsets(ts: seq<int>, k: nat, c: set<int>)
    requires StrictlyIncreasing(ts)
    ensures multiset(Enum(ts, 0, {}, k))[c] == if c <= Elems(ts, 0) && |c| == k then 1 else 0
  {
    EnumCount(ts, 0, {}, k, c);
    OccursMultiset(Enum(ts, 0, {}, k), c);
    assert c - {} == c;
  }

  /** The enumeration has C(|ts| - i, k) entries: the count `nChoosek` predicts. */
  lemma {:induction false} EnumLength(ts: seq<int>, i: nat, sub: set<int>, k: nat)
    requires i <= |ts|
    ensures |Enum(ts, i, sub, k)| == Choose(|ts| - i, k)
    decreases |ts| - i, k
  {
    if k > 0 && i < |ts| {
      EnumLength(ts, i + 1, sub + {ts[i]}, k - 1);
      EnumLength(ts, i + 1, sub, k);
      EnumLengthStep(ts, i, sub, k);
    }
  }

  /** The inductive step of `EnumLength`: Pascal's rule on both sides. */
  lemma EnumLengthStep(ts: seq<int>, i: nat, sub: set<int>, k: nat)
    requires i < |ts| && k > 0
    requires |Enum(ts, i + 1, sub + {ts[i]}, k - 1)| == Choose(|ts| - i - 1, k - 1)
    requires |Enum(ts, i + 1, sub, k)| == Choose(|ts| - i - 1, k)
    ensures |Enum(ts, i, sub, k)| == Choose(|ts| - i, k)
  {
  }
}
