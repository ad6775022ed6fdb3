/** Products, quotients and remainders of variables, one fact at a time. */
module Arithmetic {

  lemma AtLeastOnce(k: nat, s: nat)
    requires k > 0
    ensures k * s >= s
  {
  }

  lemma Distribute(a: nat, b: nat, s: nat)
    requires a <= b
    ensures (b - a) * s == b * s - a * s
  {
  }

  lemma ProductBelow(a: nat, b: nat, c: nat, d: nat)
    requires a <= c && b <= d
    ensures 0 <= a * b <= c * d
  {
  }

  lemma Divided(x: nat, s: nat)
    requires s > 0
    ensures x == x / s * s + x % s && x / s >= 0
  {
  }

  /** Quotient and remainder are unique. */
  lemma DivideSum(k: nat, s: nat, r: nat, x: nat)
    requires r < s && x == k * s + r
    ensures x / s == k && x % s == r
  {
    Divided(x, s);
    var q: nat := x / s;
    if q < k {
      Distribute(q, k, s);
      AtLeastOnce(k - q, s);
    } else if k < q {
      Distribute(k, q, s);
      AtLeastOnce(q - k, s);
    }
  }

  lemma DoubleProduct(q: nat, p: nat)
    ensures q * (2 * p) == 2 * (q * p)
  {
  }

  /** Dividing by twice `p` is halving and then dividing by `p`. */
  lemma HalveFirst(x: nat, p: nat)
    requires p > 0
    ensures x / (2 * p) == x / 2 / p && x % (2 * p) == 2 * (x / 2 % p) + x % 2
  {
    var h := x / 2;
    Divided(h, p);
    DoubleProduct(h / p, p);
    DivideSum(h / p, 2 * p, 2 * (h % p) + x % 2, x);
  }

  lemma RemainderAtMost(x: nat, p: nat)
    requires p > 0
    ensures 0 <= x % p <= x
  {
    Divided(x, p);
    ProductBelow(0, p, x / p, p);
  }

  lemma TwiceAndBit(r: nat, t: nat, b: nat)
    requires r == 2 * t + b && b < 2
    ensures r / 2 == t && r % 2 == b
  {
  }

  /** The binary digits of a remainder modulo twice `p`. */
  lemma RemainderDigits(x: nat, p: nat)
    requires p > 0
    ensures x % (2 * p) / 2 == x / 2 % p && x % (2 * p) % 2 == x % 2 && x % (2 * p) <= x
  {
    HalveFirst(x, p);
    RemainderAtMost(x / 2, p);
    TwiceAndBit(x % (2 * p), x / 2 % p, x % 2);
  }

  /** Numbers less than `k` apart with the same remainder are the same. */
  lemma CloseNumbers(m: nat, n: nat, k: nat)
    requires k > 0 && m % k == n % k && m < n + k && n < m + k
    ensures m == n
  {
    Divided(m, k);
    Divided(n, k);
    if m / k < n / k {
      Distribute(m / k, n / k, k);
      AtLeastOnce(n / k - m / k, k);
    } else if n / k < m / k {
      Distribute(n / k, m / k, k);
      AtLeastOnce(m / k - n / k, k);
    }
  }
}
