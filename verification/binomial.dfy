/**
 * `nChoosek`: the number of k-element subsets of an n-element set, computed
 * with the multiplicative formula.  `Choose` is the independent reference
 * definition (Pascal's rule) that the loop is proved against.
 */
module Binomial {

  /** C(n, k) by Pascal's rule. */
  function Choose(n: nat, k: nat): nat
  {
    if k == 0 then 1
    else if n == 0 then 0
    else Choose(n - 1, k - 1) + Choose(n - 1, k)
  }

  /** There is no way to pick more elements than there are. */
  lemma {:induction false} ChooseAbove(n: nat, k: nat)
    requires k > n
    ensures Choose(n, k) == 0
  {
    if n > 0 {
      ChooseAbove(n - 1, k - 1);
      ChooseAbove(n - 1, k);
    }
  }

  /** There is exactly one way to pick every element. */
  lemma {:induction false} ChooseAll(n: nat)
    ensures Choose(n, n) == 1
  {
    if n > 0 {
      ChooseAll(n - 1);
      ChooseAbove(n - 1, n);
    }
  }

  /** Picking k elements is the same as leaving out n - k of them. */
  lemma {:induction false} ChooseSymmetric(n: nat, k: nat)
    requires k <= n
    ensures Choose(n, k) == Choose(n, n - k)
  {
    if k == 0 {
      ChooseAll(n);
    } else if k == n {
      ChooseAll(n);
    } else {
      // C(n, k) = C(n-1, k-1) + C(n-1, k) and C(n, n-k) = C(n-1, n-k-1) + C(n-1, n-k)
      ChooseSymmetric(n - 1, k - 1);
      ChooseSymmetric(n - 1, k);
    }
  }

  /** C(m, 1) == m. */
  lemma {:induction false} ChooseOne(m: nat)
    ensures Choose(m, 1) == m
  {
    if m > 0 {
      ChooseOne(m - 1);
    }
  }

  /** The absorption identity j * C(m, j) == m * C(m - 1, j - 1). */
  lemma {:induction false} ChooseAbsorb(m: nat, j: nat)
    requires m >= 1 && j >= 1
    ensures j * Choose(m, j) == m * Choose(m - 1, j - 1)
    decreases m
  {
    if j == 1 {
      ChooseOne(m);
    } else if m == 1 {
      ChooseAbove(1, j);
      ChooseAbove(0, j - 1);
    } else {
      // j*C(m,j) = (j-1)*C(m-1,j-1) + C(m-1,j-1) + j*C(m-1,j)
      ChooseAbsorb(m - 1, j - 1);
      ChooseAbsorb(m - 1, j);
      calc {
        j * Choose(m, j);
        j * (Choose(m - 1, j - 1) + Choose(m - 1, j));
        (j - 1) * Choose(m - 1, j - 1) + Choose(m - 1, j - 1) + j * Choose(m - 1, j);
        (m - 1) * Choose(m - 2, j - 2) + Choose(m - 1, j - 1) + (m - 1) * Choose(m - 2, j - 1);
        (m - 1) * (Choose(m - 2, j - 2) + Choose(m - 2, j - 1)) + Choose(m - 1, j - 1);
        (m - 1) * Choose(m - 1, j - 1) + Choose(m - 1, j - 1);
        m * Choose(m - 1, j - 1);
      }
    }
  }

  /** Dividing an exact multiple leaves no remainder. */
  lemma DivideMultiple(a: int, b: int, j: int)
    requires j >= 1 && a == b * j
    ensures a % j == 0 && a / j == b
  {
    var q, r := a / j, a % j;
    assert a == j * q + r && 0 <= r < j;
    assert j * (b - q) == r;
    if b - q >= 1 {
      assert false;
    } else if b - q <= -1 {
      assert false;
    }
  }

  /**
   * One step of the loop: multiplying C(m - 1, j - 1) by m and dividing by j
   * leaves no remainder and gives C(m, j).
   */
  lemma StepDividesExactly(m: nat, j: nat)
    requires m >= 1 && j >= 1
    ensures (Choose(m - 1, j - 1) * m) % j == 0
    ensures (Choose(m - 1, j - 1) * m) / j == Choose(m, j)
  {
    ChooseAbsorb(m, j);
    DivideMultiple(Choose(m - 1, j - 1) * m, Choose(m, j), j);
  }

  /**
   * `nChoosek(n, k)`: 0 when k > n; otherwise k is first replaced by the
   * larger of k and n - k, and the product (k+1)(k+2)...n is divided by
   * 1, 2, ..., n - k one factor at a time.
   */
  method NChooseK(n: nat, k: nat) returns (result: nat)
    ensures result == Choose(n, k)
    ensures k > n ==> result == 0
    ensures k == 0 || k == n ==> result == 1
  {
    if k > n {
      ChooseAbove(n, k);
      return 0;
    }
    ghost var k0 := k;
    var kk := k;
    if kk * 2 < n {
      kk := n - kk;
    }
    if kk == 0 {
      return 1;
    }
    ghost var start := kk;
    result := 1;
    var r: nat := 1;
    while n > kk
      invariant start <= kk <= n
      invariant r - 1 == kk - start
      invariant result == Choose(kk, r - 1)
      decreases n - kk
    {
      kk := kk + 1;
      StepDividesExactly(kk, r);
      result := result * kk;
      result := result / r;
      r := r + 1;
    }
    // result == C(n, n - start), and start is either k or n - k
    ChooseSymmetric(n, k0);
    ChooseAll(n);
  }
}
