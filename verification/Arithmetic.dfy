/** The few nonlinear facts about products, quotients and remainders the codecs need. */
module Arithmetic {

  lemma Product(a: nat, b: nat, p: nat)
    requires a <= b
    ensures a * p <= b * p
  {
  }

  lemma Remainder(n: nat, m: nat)
    requires n < m
    ensures n % m == n
  {
  }

  lemma QuotientUnique(q: nat, p: nat, r: nat)
    requires r < p
    ensures (q * p + r) / p == q
  {
    var t := (q * p + r) / p;
    if t > q { Product(q + 1, t, p); }
    if t < q { Product(t + 1, q, p); }
  }

  lemma RemainderUnique(q: nat, p: nat, r: nat)
    requires r < p
    ensures (q * p + r) % p == r
  {
    QuotientUnique(q, p, r);
  }

  lemma DivDiv(v: nat, p: nat)
    requires p > 0
    ensures (v / 256) / p == v / (256 * p)
  {
    var q, r := (v / 256) / p, (v / 256) % p;
    assert v == q * (256 * p) + (256 * r + v % 256) by {
      assert v / 256 == q * p + r;
      assert q * (256 * p) == 256 * (q * p);
    }
    QuotientUnique(q, 256 * p, 256 * r + v % 256);
  }

  lemma DivHalf(v: nat, p: nat)
    requires p > 0
    ensures (v / 2) / p == v / (2 * p)
  {
    var q, r := (v / 2) / p, (v / 2) % p;
    assert v == q * (2 * p) + (2 * r + v % 2) by {
      assert v / 2 == q * p + r;
      assert q * (2 * p) == 2 * (q * p);
    }
    QuotientUnique(q, 2 * p, 2 * r + v % 2);
  }

  lemma Distribute(q: nat, m: nat, r: nat, p: nat)
    ensures (q * m + r) * p == q * (m * p) + r * p
  {
  }

  /** Adding `x` shifted by `p` below a word of `m * p` values keeps what of `x` fits in `m`. */
  lemma AddShifted(g: nat, x: nat, m: nat, p: nat, word: nat)
    requires m > 0 && p > 0 && word == m * p && g < p
    ensures (g + x * p) % word == g + (x % m) * p < word
  {
    var q, r := x / m, x % m;
    assert x * p == q * word + r * p by {
      assert x == q * m + r;
      Distribute(q, m, r, p);
    }
    assert g + r * p < word by {
      Product(r + 1, m, p);
      assert (r + 1) * p == r * p + p;
    }
    RemainderUnique(q, word, g + r * p);
  }
}
