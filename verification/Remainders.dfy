/** Remainders, as the round-robin lanes and the circular probe use them. */
module Remainders {
  lemma Multiples(n: nat, d: int)
    requires n >= 1
    ensures d >= 1 ==> n * d >= n
    ensures d <= 0 ==> n * d <= 0
    ensures d <= -1 ==> n * d + n <= 0
  {
  }

  lemma RemainderOf(n: nat, q: int, r: nat)
    requires r < n && n * q + r >= 0
    ensures (n * q + r) % n == r
  {
    var x := n * q + r;
    assert x == n * (x / n) + x % n;
    Multiples(n, x / n - q);
    assert n * (x / n) - n * q == n * (x / n - q);
  }

  /** Two numbers less than n apart have different remainders. */
  lemma NearDiffer(n: nat, k: nat, j: nat)
    requires n >= 1 && k < j < k + n
    ensures j % n != k % n
  {
    assert j == n * (j / n) + j % n && k == n * (k / n) + k % n;
    Multiples(n, j / n - k / n);
    assert n * (j / n) - n * (k / n) == n * (j / n - k / n);
  }

  lemma NextRound(n: nat, j: nat)
    requires n >= 1
    ensures (j + n) % n == j % n
  {
    assert j + n == n * (j / n + 1) + j % n;
    RemainderOf(n, j / n + 1, j % n);
  }

  lemma NextPosition(n: nat, x: nat)
    requires n >= 1
    ensures (x % n + 1) % n == (x + 1) % n
  {
    var q, r := x / n, x % n;
    assert x + 1 == n * q + (r + 1);
    NextOf(n, q, r);
  }

  lemma NextOf(n: nat, q: nat, r: nat)
    requires r < n
    ensures n * q >= 0 && (r + 1) % n == (n * q + (r + 1)) % n
  {
    if r + 1 < n {
      RemainderOf(n, q, r + 1);
      RemainderOf(n, 0, r + 1);
    } else {
      assert n * q + (r + 1) == n * (q + 1) + 0;
      RemainderOf(n, q + 1, 0);
      RemainderOf(n, 1, 0);
    }
  }
}
