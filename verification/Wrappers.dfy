/** What every part of the model uses: optional values, a law of sequences and one of
    division. */
module Wrappers {
  datatype Option<T> = None | Some(value: T)

  lemma ConcatAssoc<T>(a: seq<T>, b: seq<T>, c: seq<T>)
    ensures (a + b) + c == a + (b + c)
  {
  }

  /** No multiple of `m` but zero is closer to zero than `m`. */
  lemma NearestMultiple(d: int, m: nat)
    requires -1 * m < d * m < m
    ensures d == 0
  {
    assert d >= 1 ==> d * m == (d - 1) * m + m && (d - 1) * m >= 0;
    assert d <= -1 ==> d * m == (d + 1) * m - m && (-1 - d) * m >= 0;
  }

  /** Quotient and remainder are determined. */
  lemma Division(n: nat, m: nat, q: nat, r: nat)
    requires n == q * m + r && r < m
    ensures n / m == q && n % m == r
  {
    var d := n / m - q;
    assert n == n / m * m + n % m;
    assert d * m == n / m * m - q * m;
    NearestMultiple(d, m);
  }
}
