/** Multiples and remainders, for cursors that wrap and addresses that divide. */
module Arithmetic {
  lemma MultipleBounds(k: int, n: nat)
    ensures k >= 1 ==> k * n >= n
    ensures k <= 0 ==> k * n <= 0
    ensures k <= -1 ==> k * n <= 0 - n as int
  {
    if k >= 1 {
      assert (k - 1) * n >= 0;
    } else {
      assert -k * n >= 0;
      assert k <= -1 ==> (-k - 1) * n >= 0;
    }
  }

  lemma DivMod(x: nat, n: nat)
    requires n > 0
    ensures x == (x / n) * n + x % n
  {
  }

  lemma DivModUnique(x: nat, q: nat, n: nat, r: nat)
    requires r < n && x == q * n + r
    ensures x / n == q && x % n == r
  {
    var a := x / n;
    DivMod(x, n);
    assert (a - q) * n == a * n - q * n;
    MultipleBounds(a - q, n);
  }

  lemma AddMultiple(a: nat, r: nat, n: nat)
    requires n > 0
    ensures (a * n + r) % n == r % n && (a * n + r) / n == a + r / n
  {
    DivMod(r, n);
    assert (a + r / n) * n == a * n + (r / n) * n;
    DivModUnique(a * n + r, a + r / n, n, r % n);
  }

  /** Wrapping at a multiple of `n` keeps the remainder. */
  lemma WrapKeepsRemainder(x: nat, word: nat, n: nat)
    requires n > 0 && word > 0 && word % n == 0
    ensures (x % word) % n == x % n
  {
    var k, q := word / n, x / word;
    DivMod(word, n);
    DivMod(x, word);
    assert q * (k * n) == (q * k) * n;
    AddMultiple(q * k, x % word, n);
  }

  /** Numbers less than `n` apart have different remainders. */
  lemma RemaindersDiffer(x: nat, y: nat, n: nat)
    requires x < y < x + n
    ensures x % n != y % n
  {
    DivMod(x, n);
    DivMod(y, n);
    var a, b := x / n, y / n;
    assert (b - a) * n == b * n - a * n;
    MultipleBounds(b - a, n);
  }
}
