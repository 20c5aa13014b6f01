/** Bitwise or on natural numbers, and where it is addition. */
module Bits {

  /** `a | b`: each bit is set that is set in either. */
  function Or(a: nat, b: nat): nat
    decreases a + b
  {
    if a == 0 && b == 0 then 0
    else (if a % 2 == 1 || b % 2 == 1 then 1 else 0) + 2 * Or(a / 2, b / 2)
  }

  /** `x << j`, not cut to any width. */
  function Shl(x: nat, j: nat): nat {
    if j == 0 then x else 2 * Shl(x, j - 1)
  }

  lemma {:induction false} ShlZero(j: nat)
    ensures Shl(0, j) == 0
  {
    if j > 0 { ShlZero(j - 1); }
  }

  lemma {:induction false} ShlTwice(x: nat, j: nat, k: nat)
    ensures Shl(Shl(x, j), k) == Shl(x, j + k)
  {
    if k > 0 { ShlTwice(x, j, k - 1); }
  }

  /** Or works on the low `j` bits and on the bits above them separately. */
  lemma {:induction false} OrSplits(lo: nat, hi: nat, lo': nat, hi': nat, j: nat)
    requires lo < Shl(1, j) && lo' < Shl(1, j)
    ensures Or(lo + Shl(hi, j), lo' + Shl(hi', j)) == Or(lo, lo') + Shl(Or(hi, hi'), j)
  {
    if j > 0 {
      OrSplits(lo / 2, hi, lo' / 2, hi', j - 1);
      var x, x', o := Shl(hi, j - 1), Shl(hi', j - 1), Shl(Or(hi, hi'), j - 1);
      OrOneUp(lo, lo % 2, lo / 2, x, Shl(hi, j), lo', lo' % 2, lo' / 2, x', Shl(hi', j), o);
    }
  }

  /** The lowest bits, and the others. */
  lemma OrOfBits(lo: nat, p: nat, a: nat, lo': nat, q: nat, b: nat)
    requires lo == p + 2 * a && p < 2 && lo' == q + 2 * b && q < 2
    ensures Or(lo, lo') == (if p == 1 || q == 1 then 1 else 0) + 2 * Or(a, b)
  {
  }

  /** What holds of the other bits holds one bit up. */
  lemma OrOneUp(lo: nat, p: nat, a: nat, x: nat, y: nat, lo': nat, q: nat, b: nat, x': nat, y': nat, o: nat)
    requires lo == p + 2 * a && p < 2 && y == 2 * x
    requires lo' == q + 2 * b && q < 2 && y' == 2 * x'
    requires Or(a + x, b + x') == Or(a, b) + o
    ensures Or(lo + y, lo' + y') == Or(lo, lo') + 2 * o
  {
    OrOfBits(lo, p, a, lo', q, b);
    OrOfBits(lo + y, p, a + x, lo' + y', q, b + x');
  }

  lemma {:induction false} OrZero(a: nat)
    ensures Or(a, 0) == Or(0, a) == a
  {
    if a > 0 { OrZero(a / 2); }
  }

  /** Where the operands share no bits, or is addition. */
  lemma OrOfDisjoint(low: nat, x: nat, j: nat)
    requires low < Shl(1, j)
    ensures Or(low, Shl(x, j)) == Or(Shl(x, j), low) == low + Shl(x, j)
  {
    ShlZero(j);
    OrZero(low);
    OrZero(x);
    OrSplits(low, 0, 0, x, j);
    OrSplits(0, x, low, 0, j);
  }

  lemma {:induction false} ShlAdds(x: nat, y: nat, j: nat)
    ensures Shl(x + y, j) == Shl(x, j) + Shl(y, j)
  {
    if j > 0 { ShlAdds(x, y, j - 1); }
  }

  /** Setting bit `j` leaves the bits below it and the bits above it. */
  lemma OrSetsBit(lo: nat, hi: nat, j: nat)
    requires lo < Shl(1, j)
    ensures Or(lo + Shl(hi, j), Shl(1, j)) == lo + Shl(1, j) + Shl(hi / 2, j + 1)
  {
    OrSplits(lo, hi, 0, 1, j);
    OrOfBits(hi, hi % 2, hi / 2, 1, 1, 0);
    OrZero(hi / 2);
    OrZero(lo);
    ShlAdds(1, 2 * (hi / 2), j);
    ShlAdds(hi / 2, hi / 2, j);
  }
}
