/** Quotients and remainders by a variable divisor. */
module Arithmetic {

  lemma MulBound(d: int, w: nat)
    ensures d >= 1 ==> d * w >= w
    ensures d <= -1 ==> d * w + w <= 0
  {
    if d >= 1 {
      assert d * w == (d - 1) * w + w;
    }
    if d <= -1 {
      assert d * w == (d + 1) * w - w;
    }
  }

  lemma Distribute(p: int, q: int, w: nat)
    ensures (p + q) * w == p * w + q * w
    ensures (p - q) * w == p * w - q * w
  {
  }

  lemma QuotientIs(n: int, w: nat, q: int, r: int)
    requires w > 0 && n == q * w + r && 0 <= r < w
    ensures n / w == q && n % w == r
  {
    var p := n / w;
    assert n == p * w + n % w;
    Distribute(p, q, w);
    MulBound(p - q, w);
  }

  lemma DivModStep(i: nat, w: nat)
    requires w > 0
    ensures i % w + 1 < w ==> (i + 1) / w == i / w && (i + 1) % w == i % w + 1
    ensures i % w + 1 == w ==> (i + 1) / w == i / w + 1 && (i + 1) % w == 0
  {
    var q, r := i / w, i % w;
    assert i == q * w + r;
    if r + 1 < w {
      QuotientIs(i + 1, w, q, r + 1);
    } else {
      Distribute(q, 1, w);
      QuotientIs(i + 1, w, q + 1, 0);
    }
  }

  /** Adding to a position adds to its quotient and remainder with carry. */
  lemma DivModAdd(i: nat, k: nat, w: nat)
    requires w > 0
    ensures (i + k) / w == i / w + (i % w + k) / w
    ensures (i + k) % w == (i % w + k) % w
  {
    var q, r := i / w, i % w;
    var d, e := (r + k) / w, (r + k) % w;
    assert i == q * w + r;
    assert r + k == d * w + e;
    Distribute(q, d, w);
    QuotientIs(i + k, w, q + d, e);
  }

  lemma PositionUnique(i: nat, k: nat, w: nat)
    requires w > 0 && i / w == k / w && i % w == k % w
    ensures i == k
  {
    assert i == i / w * w + i % w && k == k / w * w + k % w;
  }

  lemma ModShift(n: int, w: nat)
    requires w > 0
    ensures (n + w) % w == n % w && (n - w) % w == n % w
    ensures (n + w) / w == n / w + 1
  {
    var q, r := n / w, n % w;
    assert n == q * w + r;
    Distribute(q, 1, w);
    QuotientIs(n + w, w, q + 1, r);
    QuotientIs(n - w, w, q - 1, r);
  }
}
