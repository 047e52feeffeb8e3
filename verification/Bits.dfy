/** Bitwise or of unsigned machine words, on natural numbers. */
module Bits {
  import opened Arithmetic

  function BitOr(a: nat, b: nat): nat
    decreases a + b
  {
    if a == 0 then b
    else if b == 0 then a
    else 2 * BitOr(a / 2, b / 2) + (if a % 2 == 1 || b % 2 == 1 then 1 else 0)
  }

  function Pow2(k: nat): (p: nat)
    ensures p >= 1
  {
    if k == 0 then 1 else 2 * Pow2(k - 1)
  }

  /** Words without a common bit are joined by addition. */
  lemma {:induction false} OrIsSum(a: nat, b: nat, k: nat)
    requires a % Pow2(k) == 0 && b < Pow2(k)
    ensures BitOr(a, b) == a + b
    decreases k
  {
    if k > 0 && a > 0 && b > 0 {
      HalveMultiple(a, Pow2(k - 1));
      OrIsSum(a / 2, b / 2, k - 1);
    }
  }

  lemma HalveMultiple(a: nat, p: nat)
    requires p >= 1 && a % (2 * p) == 0
    ensures a % 2 == 0 && (a / 2) % p == 0
  {
    var q := a / (2 * p);
    assert a == 2 * (q * p);
    DivMod(q, p, 0);
  }

  function High(a: nat, p: nat): nat
    requires p >= 1
  {
    a / p
  }

  function Low(a: nat, p: nat): nat
    requires p >= 1
  {
    a % p
  }

  /** The bits above and below bit k of a word are joined separately. */
  lemma {:induction false} OrSplit(a: nat, b: nat, k: nat)
    ensures BitOr(a, b) == Pow2(k) * BitOr(High(a, Pow2(k)), High(b, Pow2(k))) + BitOr(Low(a, Pow2(k)), Low(b, Pow2(k)))
    decreases k
  {
    if k > 0 {
      var p := Pow2(k - 1);
      OrSplit(a / 2, b / 2, k - 1);
      OrHalves(a, b);
      HalvedSplit(a, p);
      HalvedSplit(b, p);
      OrHalves(Low(a, 2 * p), Low(b, 2 * p));
      Doubled(p, BitOr(High(a, 2 * p), High(b, 2 * p)));
    } else {
      assert High(a, 1) == a && High(b, 1) == b && Low(a, 1) == 0 && Low(b, 1) == 0;
    }
  }

  lemma Doubled(p: nat, x: nat)
    ensures 2 * p * x == 2 * (p * x)
  {
  }

  lemma OrHalves(a: nat, b: nat)
    ensures BitOr(a, b) == 2 * BitOr(a / 2, b / 2) + (if a % 2 == 1 || b % 2 == 1 then 1 else 0)
  {
  }

  lemma HalvedSplit(a: nat, p: nat)
    requires p >= 1
    ensures High(a / 2, p) == High(a, 2 * p) && Low(a, 2 * p) / 2 == Low(a / 2, p) && Low(a, 2 * p) % 2 == a % 2
  {
    var q := a / 2 / p;
    var r := a / 2 % p;
    assert a == q * (2 * p) + (2 * r + a % 2);
    DivMod(q, 2 * p, 2 * r + a % 2);
  }

  lemma {:induction false} Pow2Sum(i: nat, j: nat)
    ensures Pow2(i + j) == Pow2(i) * Pow2(j)
    decreases i
  {
    if i > 0 {
      Pow2Sum(i - 1, j);
      Doubled(Pow2(i - 1), Pow2(j));
    }
  }
}
