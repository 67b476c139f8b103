/** Facts about multiplication and division that are stated once and used without unfolding. */
module Arith {

  lemma MulAtLeast(x: int, d: nat)
    requires x >= 1
    ensures x * d >= d
  {
    assert x * d == (x - 1) * d + d;
    assert (x - 1) * d >= 0;
  }

  lemma Distribute(x: int, y: int, d: int)
    ensures (x - y) * d == x * d - y * d
    ensures (x + y) * d == x * d + y * d
  {
  }

  /** Quotient and remainder are determined by `a == q * d + r` and `0 <= r < d`. */
  lemma DivisionUnique(a: int, d: nat, q: int, r: int)
    requires d > 0 && 0 <= r < d && a == q * d + r
    ensures a / d == q && a % d == r
  {
    var q' := a / d;
    var r' := a % d;
    assert a == q' * d + r';
    Distribute(q, q', d);
    if q' < q {
      MulAtLeast(q - q', d);
      assert false;
    } else if q < q' {
      Distribute(q', q, d);
      MulAtLeast(q' - q, d);
      assert false;
    }
  }

  /** Dividing by `2` and then by `p` is dividing by `2 * p`. */
  lemma HalveThenDivide(b: nat, p: nat)
    requires p > 0
    ensures b / 2 / p == b / (2 * p)
  {
    var h := b / 2;
    var q := h / p;
    var r := h % p;
    assert h == q * p + r;
    assert 2 * (q * p) == q * (2 * p);
    DivisionUnique(b, 2 * p, q, 2 * r + b % 2);
  }

  /** Dividing by `p` and then by `2` is dividing by `2 * p`. */
  lemma DivideThenHalve(b: nat, p: nat)
    requires p > 0
    ensures b / p / 2 == b / (2 * p)
  {
    var h := b / p;
    var q := h / 2;
    var r := h % 2;
    assert h * p == q * (2 * p) + r * p by {
      assert h == 2 * q + r;
      Distribute(2 * q, -r, p);
      assert 2 * q * p == q * (2 * p);
      assert (2 * q + r) * p == 2 * q * p + r * p;
    }
    if r == 0 { assert r * p == 0; } else { assert r * p == p; }
    DivisionUnique(b, 2 * p, q, r * p + b % p);
  }

  lemma SplitUnits(p: nat, d: nat, h: nat)
    ensures p * (d + 2 * h) == d * p + 2 * p * h
  {
    Distribute(d, -2 * h, p);
  }
}
