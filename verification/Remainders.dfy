/** Quotients and remainders by a number that is not a constant. */
module Remainders {

  lemma NextIndex(a: nat, n: nat)
    requires n > 0
    ensures (a % n + 1) % n == (a + 1) % n
  {
    var q, r := a / n, a % n;
    assert a == q * n + r;
    if r + 1 < n {
      Remainder(q, n, r + 1);
    } else {
      assert (q + 1) * n == q * n + n;
      Remainder(q + 1, n, 0);
    }
  }

  lemma Remainder(q: nat, n: nat, r: nat)
    requires r < n
    ensures (q * n + r) / n == q && (q * n + r) % n == r
  {
    var a := q * n + r;
    var p, s := a / n, a % n;
    assert a == p * n + s;
    if p < q {
      assert (p + 1) * n == p * n + n;
      Larger(p + 1, q, n);
    } else if p > q {
      assert (q + 1) * n == q * n + n;
      Larger(q + 1, p, n);
    }
  }

  lemma Larger(p: nat, q: nat, n: nat)
    requires p <= q
    ensures p * n <= q * n
  {
    assert q * n == p * n + (q - p) * n;
  }

  // Places less than a whole turn apart are different slots.
  lemma DifferentSlots(a: nat, b: nat, n: nat)
    requires n > 0 && a < b < a + n
    ensures a % n != b % n
  {
    var p, r, d := a / n, a % n, b - a;
    assert a == p * n + r;
    if r + d < n {
      Remainder(p, n, r + d);
    } else {
      assert (p + 1) * n == p * n + n;
      Remainder(p + 1, n, r + d - n);
    }
  }
}
