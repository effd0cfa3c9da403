/**
 The operators `&` and `|` of C on unsigned words, bit by bit, and the arithmetic they come to
 for masks and for words without common bits. The shifts `<<` and `>>` are by definition products
 with and quotients by powers of two.
 */
module Bits {

  function And(x: nat, y: nat): nat {
    if x == 0 || y == 0 then 0
    else (if x % 2 == 1 && y % 2 == 1 then 1 else 0) + 2 * And(x / 2, y / 2)
  }

  function Or(x: nat, y: nat): nat {
    if x == 0 then y
    else if y == 0 then x
    else (if x % 2 == 1 || y % 2 == 1 then 1 else 0) + 2 * Or(x / 2, y / 2)
  }

  function Pow2(k: nat): (p: nat)
    ensures p > 0
  {
    if k == 0 then 1 else 2 * Pow2(k - 1)
  }

  lemma HalfRemainder(x: nat, m: nat)
    requires m > 0
    ensures x % (2 * m) == x % 2 + 2 * (x / 2 % m)
  {
    var q, r := x / 2 / m, x / 2 % m;
    assert x == 2 * m * q + (2 * r + x % 2);
    RemainderIs(x, 2 * m, q, 2 * r + x % 2);
  }

  lemma RemainderIs(x: nat, m: nat, q: nat, r: nat)
    requires r < m && x == m * q + r
    ensures x % m == r
  {
    var d := x / m - q;
    assert m * d == r - x % m;
    assert d > 0 ==> m * d >= m;
    assert d < 0 ==> m * d + m <= 0;
  }

  // `x & (2^k - 1)`
  lemma {:induction false} MaskIsRemainder(x: nat, k: nat)
    ensures And(x, Pow2(k) - 1) == x % Pow2(k)
  {
    if k > 0 {
      MaskIsRemainder(x / 2, k - 1);
      HalfRemainder(x, Pow2(k - 1));
    }
  }

  lemma OrStep(x: nat, y: nat)
    ensures Or(2 * x, y) == y % 2 + 2 * Or(x, y / 2)
  {
  }

  lemma Doubled(x: nat, k: nat)
    requires k > 0
    ensures x * Pow2(k) == 2 * (x * Pow2(k - 1))
  {
  }

  // Words without common bits.
  lemma {:induction false} OrIsSum(x: nat, k: nat, y: nat)
    requires y < Pow2(k)
    ensures Or(x * Pow2(k), y) == x * Pow2(k) + y
  {
    hide Or;
    if k == 0 {
      OrOfNothing(x);
    } else {
      Doubled(x, k);
      OrStep(x * Pow2(k - 1), y);
      OrIsSum(x, k - 1, y / 2);
    }
  }

  lemma OrOfNothing(x: nat)
    ensures Or(x * Pow2(0), 0) == x
  {
    assert x * Pow2(0) == x;
  }

  lemma {:induction false} OrCommutes(x: nat, y: nat)
    ensures Or(x, y) == Or(y, x)
  {
    if x != 0 && y != 0 {
      OrCommutes(x / 2, y / 2);
    }
  }

  // The last bit of `(x | 2m) & (2n + 1)`, and the others.
  lemma SetAndMask(x: nat, m: nat, n: nat)
    ensures And(Or(x, 2 * m), 2 * n + 1) == x % 2 + 2 * And(Or(x / 2, m), n)
  {
    var or := Or(x, 2 * m);
    assert or % 2 == x % 2 && or / 2 == Or(x / 2, m);
    assert (2 * n + 1) / 2 == n;
  }
}
