/** Facts about multiplication, division and remainder that Dafny does not find unaided. */
module Arithmetic {

  lemma MulSign(d: int, h: int)
    requires h >= 0
    ensures d >= 1 ==> d * h >= h
    ensures d <= -1 ==> d * h <= -h
    ensures d <= 0 ==> d * h <= 0
  {
  }

  /** q and m are the quotient and remainder of q * h + m. */
  lemma ModMultiple(q: int, m: int, h: int)
    requires 0 <= m < h
    ensures (q * h + m) % h == m && (q * h + m) / h == q
  {
    var x := q * h + m;
    var d := x / h - q;
    assert x == (x / h) * h + x % h;
    assert (x / h) * h == (d + q) * h == d * h + q * h;
    MulSign(d, h);
  }

  lemma StepKeepsClass(p: int, h: nat)
    requires h > 0
    ensures (p + h) % h == p % h && (p - h) % h == p % h
    ensures (p + h) / h == p / h + 1 && (p - h) / h == p / h - 1
  {
    var q, m := p / h, p % h;
    assert p == q * h + m;
    assert p + h == (q + 1) * h + m && p - h == (q - 1) * h + m;
    ModMultiple(q + 1, m, h);
    ModMultiple(q - 1, m, h);
  }

  /** Two different members of a residue class are at least h apart. */
  lemma NextInClass(r: int, p: int, h: nat)
    requires h > 0 && r < p && p % h == r % h
    ensures r + h <= p
  {
    var d := p / h - r / h;
    assert p == (p / h) * h + p % h && r == (r / h) * h + r % h;
    assert p - r == d * h by { assert (p / h) * h - (r / h) * h == d * h; }
    MulSign(d, h);
  }
}
