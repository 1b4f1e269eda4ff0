/** Products and remainders that the solver is better told about one at a time. */
module Arithmetic {
  lemma ScaleKeepsOrder(k: nat, a: nat, b: nat)
    requires a <= b
    ensures k * a <= k * b
  {
  }

  lemma ModOfSum(a: nat, b: nat, n: nat)
    requires n > 0
    ensures (a % n + b) % n == (a + b) % n
  {
    var q := a / n;
    assert a == n * q + a % n;
    ModAddMultiple(a % n + b, q, n);
    assert a + b == a % n + b + n * q;
  }

  lemma {:induction false} ModAddMultiple(x: nat, q: nat, n: nat)
    requires n > 0
    ensures (x + n * q) % n == x % n
    decreases q
  {
    if q > 0 {
      ModAddMultiple(x, q - 1, n);
      assert x + n * q == x + n * (q - 1) + n;
      ModAddOnce(x + n * (q - 1), n);
    }
  }

  lemma RemainderIsUnique(x: nat, n: nat, q: nat, r: nat)
    requires n > 0 && x == n * q + r && r < n
    ensures x % n == r
  {
    var q' := x / n;
    assert x == n * q' + x % n;
    if q' < q {
      ScaleKeepsOrder(n, q' + 1, q);
      assert false;
    }
    if q < q' {
      ScaleKeepsOrder(n, q + 1, q');
      assert false;
    }
  }

  lemma ModAddOnce(y: nat, n: nat)
    requires n > 0
    ensures (y + n) % n == y % n
  {
    assert y == n * (y / n) + y % n;
    RemainderIsUnique(y + n, n, y / n + 1, y % n);
  }

  lemma Commutes(a: nat, b: nat)
    ensures a * b == b * a
  {
  }

  lemma DivMod(d: nat, k: nat)
    requires k > 0
    ensures d == k * (d / k) + d % k && d % k < k
  {
  }

  lemma QuotientBelowCeiling(d: nat, n: nat, k: nat)
    requires 0 < k && d < n
    ensures d / k < (n + k - 1) / k
  {
    var q, c := d / k, (n + k - 1) / k;
    assert d == k * q + d % k;
    assert n + k - 1 == k * c + (n + k - 1) % k;
    if q >= c {
      ScaleKeepsOrder(k, c, q);
      assert false;
    }
  }

  lemma SmallRemainder(x: nat, n: nat)
    requires x < n
    ensures x % n == x
  {
  }

  lemma CeilingIsSmall(n: nat, k: nat)
    requires 0 < k
    ensures (n + k - 1) / k <= n
  {
    var c := (n + k - 1) / k;
    DivMod(n + k - 1, k);
    if c > n {
      ScaleKeepsOrder(k, n + 1, c);
      ScaleKeepsOrder(n, 1, k);
      Commutes(n, k);
      assert false;
    }
  }
}
