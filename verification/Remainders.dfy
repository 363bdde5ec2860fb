/** Remainders by a number that is not a constant. */
module Remainders {

  lemma MultipleIsFar(x: int, n: int)
    requires n > 0 && x != 0
    ensures x * n >= n || x * n <= -n
  {
    if x > 0 {
      assert (x - 1) * n >= 0;
    } else {
      assert (-x - 1) * n >= 0;
    }
  }

  lemma SameRemainder(t: int, q: int, r: int, n: nat)
    requires n > 0 && t == q * n + r && 0 <= r < n
    ensures t % n == r
  {
    var d, m := t / n, t % n;
    assert t == n * d + m;
    assert (d - q) * n == d * n - q * n;
    if d != q { MultipleIsFar(d - q, n); }
  }
}
