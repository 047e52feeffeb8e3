/** The widths of machine words, and the few facts about products and quotients that the verifier does not find by
    itself. */
module Arithmetic {

  const TWO_32: int := 0x1_0000_0000
  const TWO_64: int := 0x1_0000_0000_0000_0000

  lemma Multiple(a: int, w: int)
    requires 0 < w
    ensures a >= 1 ==> a * w >= w
    ensures a <= -1 ==> a * w <= -w
  {
  }

  lemma Distributed(a: int, b: int, w: int)
    ensures (a + b) * w == a * w + b * w
  {
  }

  lemma Associated(a: int, b: int, c: int)
    ensures a * (b * c) == a * b * c
  {
  }

  lemma Commuted(a: int, b: int)
    ensures a * b == b * a
  {
  }

  lemma NotNegative(a: nat, w: nat)
    ensures a * w >= 0
  {
  }

  lemma Scaled(a: nat, b: nat, w: nat)
    requires a <= b
    ensures a * w <= b * w
  {
    Distributed(a, b - a, w);
    NotNegative(b - a, w);
  }

  /** Interval i of n intervals of length w. */
  lemma IntervalInside(i: nat, n: nat, w: nat)
    requires i < n
    ensures 0 <= i * w && i * w + w <= n * w
  {
    NotNegative(i, w);
    Distributed(i, 1, w);
    Scaled(i + 1, n, w);
  }

  lemma QuotientIs(v: int, w: int, q: int)
    requires 0 < w
    ensures v / w == q <==> q * w <= v < q * w + w
  {
    Multiple(q - v / w, w);
    assert (q - v / w) * w == q * w - v / w * w;
  }

  /** Quotient and remainder of a number given as q * w + r. */
  lemma DivMod(q: int, w: int, r: int)
    requires 0 <= r < w
    ensures (q * w + r) / w == q && (q * w + r) % w == r
  {
    QuotientIs(q * w + r, w, q);
  }

  lemma Parted(v: int, w: int)
    requires 0 < w
    ensures v == v / w * w + v % w && 0 <= v % w < w
  {
  }

  lemma ModuloMultiple(a: int, w: int, v: int)
    requires 0 < w
    ensures (a * w + v) % w == v % w
  {
    var q, r := v / w, v % w;
    Parted(v, w);
    Distributed(a, q, w);
    DivMod(a + q, w, r);
  }

  /** Appending a digit may be done modulo w. */
  lemma DigitModulo(q: int, d: int, w: int)
    requires 0 < w
    ensures (q % w * 10 + d) % w == (q * 10 + d) % w
  {
    var a, r := q / w, q % w;
    Parted(q, w);
    Associated(10, a, w);
    ModuloMultiple(10 * a, w, r * 10 + d);
  }
}
