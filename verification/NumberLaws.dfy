/**
 What the number functions mean, without their own recursion: digits by a table, place values,
 powers of ten as natural numbers, truncation and the choice of digits when printing.
 */
module NumberLaws {
  import opened Numbers

  const DIGITS: string := "0123456789"

  lemma DigitExactly(c: char)
    ensures Digit(c) <==> c in DIGITS
    ensures NumberChar(c) <==> c in DIGITS || c in "+-eE."
  {
    assert forall k | 0 <= k < 10 :: DIGITS[k] == (k + '0' as int) as char;
    assert Digit(c) ==> DIGITS[c as int - '0' as int] == c;
  }

  // ---- Place values ----

  predicate Decimal(vs: seq<nat>) {
    forall i | 0 <= i < |vs| :: vs[i] < 10
  }

  function Spelt(vs: seq<nat>): (d: string)
    requires Decimal(vs)
    ensures |d| == |vs|
  {
    seq(|vs|, i requires 0 <= i < |vs| => DIGITS[vs[i]])
  }

  // The first digit counts most.
  function PlaceValue(vs: seq<nat>): nat {
    if vs == [] then 0 else vs[0] * Ten(|vs| - 1) + PlaceValue(vs[1..])
  }

  lemma {:induction false} PlaceValueSnoc(vs: seq<nat>, v: nat)
    ensures PlaceValue(vs + [v]) == PlaceValue(vs) * 10 + v
  {
    var all := vs + [v];
    if vs == [] {
      assert all == [v] && all[1..] == [];
      assert PlaceValue(all) == v * Ten(0) + PlaceValue(all[1..]);
    } else {
      assert all[1..] == vs[1..] + [v];
      PlaceValueSnoc(vs[1..], v);
      assert Ten(|vs|) == 10 * Ten(|vs| - 1);
      assert vs[0] * (10 * Ten(|vs| - 1)) == 10 * (vs[0] * Ten(|vs| - 1));
    }
  }

  lemma SpeltIsDigits(vs: seq<nat>)
    requires Decimal(vs)
    ensures AllDigits(Spelt(vs))
  {
  }

  lemma {:induction false} DigitsValueExactly(vs: seq<nat>)
    requires Decimal(vs)
    ensures AllDigits(Spelt(vs)) && DigitsValue(Spelt(vs)) == PlaceValue(vs)
  {
    SpeltIsDigits(vs);
    if vs != [] {
      var front, last := vs[..|vs| - 1], vs[|vs| - 1];
      DigitsValueExactly(front);
      PlaceValueSnoc(front, last);
      assert vs == front + [last] && Spelt(vs)[..|vs| - 1] == Spelt(front);
      assert forall k | 0 <= k < 10 :: DIGITS[k] == (k + '0' as int) as char;
    }
  }

  // Every string of digits is spelt so.
  lemma EveryDigitsAreSpelt(d: string) returns (vs: seq<nat>)
    requires AllDigits(d)
    ensures Decimal(vs) && Spelt(vs) == d
  {
    vs := seq(|d|, i requires 0 <= i < |d| => d[i] as int - '0' as int);
    forall i | 0 <= i < |d|
      ensures Spelt(vs)[i] == d[i]
    {
      DigitExactly(d[i]);
    }
  }

  // ---- The value of a numeral ----

  predicate IsQuotient(q: real, m: real, t: real) {
    q * t == m
  }

  lemma {:induction false} Power10Exactly(k: int)
    requires k >= 0
    ensures Power10(k) == Ten(k) as real && IsQuotient(Power10(-k), 1.0, Ten(k) as real)
  {
    if k > 0 {
      Power10Exactly(k - 1);
      assert Power10(-k) == Power10(-(k - 1)) / 10.0;
      TenthPart(Power10(-(k - 1)), Ten(k - 1) as real);
    }
  }

  lemma TenthPart(p: real, t: real)
    requires IsQuotient(p, 1.0, t)
    ensures IsQuotient(p / 10.0, 1.0, 10.0 * t)
  {
    assert p / 10.0 * (10.0 * t) == p * t;
  }

  function Product(v: real, p: real): real {
    v * p
  }

  lemma QuotientTimes(v: real, p: real, t: real)
    requires IsQuotient(p, 1.0, t)
    ensures IsQuotient(Product(v, p), v, t) && IsQuotient(-Product(v, p), -v, t)
  {
    assert v * p * t == v * (p * t);
  }

  function WithSign(minus: bool, v: int): int {
    if minus then -v else v
  }

  ghost predicate ExponentIs(n: Numeral, exp: seq<nat>)
    requires Decimal(exp)
  {
    if n.exp.NoExponent? then exp == [] else n.exp.digits == Spelt(exp)
  }

  // Minus the digits behind the point.
  function ExponentOf(n: Numeral, exp: seq<nat>): int {
    WithSign(n.exp.Exponent? && n.exp.sign == "-", PlaceValue(exp)) - |n.frac|
  }

  // All digits as one number, times or divided by a power of ten.
  lemma NumeralValueExactly(n: Numeral, digits: seq<nat>, exp: seq<nat>)
    requires WellFormed(n) && Decimal(digits) && n.whole + n.frac == Spelt(digits)
    requires Decimal(exp) && ExponentIs(n, exp)
    ensures var e, m := ExponentOf(n, exp), WithSign(n.sign == "-", PlaceValue(digits));
            if e >= 0 then NumeralValue(n) == (m * Ten(e)) as real
            else IsQuotient(NumeralValue(n), m as real, Ten(-e) as real)
  {
    hide PlaceValue, Power10, Ten, Spelt, DigitsValue, IsQuotient, NumeralText;
    var e := ExponentOf(n, exp);
    DigitsValueExactly(digits);
    if n.exp.Exponent? {
      DigitsValueExactly(exp);
    } else {
      NoPlaces();
    }
    assert NumeralValue(n) == Signed(n.sign, Product(PlaceValue(digits) as real, Power10(e)));
    Scaled(PlaceValue(digits), e, n.sign);
  }

  lemma Scaled(v: int, e: int, sign: string)
    ensures var x, m := Signed(sign, Product(v as real, Power10(e))), WithSign(sign == "-", v);
            if e >= 0 then x == (m * Ten(e)) as real else IsQuotient(x, m as real, Ten(-e) as real)
  {
    hide Power10, Ten, IsQuotient, Product;
    if e >= 0 {
      Power10Exactly(e);
      WholeProduct(v, Ten(e));
    } else {
      Power10Exactly(-e);
      assert -(-e) == e && (-v) as real == -(v as real);
      QuotientTimes(v as real, Power10(e), Ten(-e) as real);
    }
  }

  lemma NoPlaces()
    ensures PlaceValue([]) == 0
  {
  }

  lemma WholeProduct(v: int, t: int)
    ensures Product(v as real, t as real) == (v * t) as real && -Product(v as real, t as real) == (-v * t) as real
  {
  }

  // ---- `valueint` ----

  // Towards zero, and the nearest end of the range outside.
  lemma SaturateExactly(d: real, i: int)
    ensures Saturate(d) == i <==>
            if d >= 2147483647.0 then i == 2147483647
            else if d <= -2147483648.0 then i == -2147483648
            else if d >= 0.0 then i as real <= d < (i + 1) as real
            else (i - 1) as real < d <= i as real
  {
  }

  // ---- Printing ----

  // What is printed reads back within the tolerance if seventeen digits do, and has at most
  // fifteen digits if those do.
  lemma PrintedReadsBack(d: real)
    ensures CompareDouble(DoubleOf(G17(d)), d) ==> CompareDouble(DoubleOf(PrintedNumeral(d)), d)
    ensures !IsInt(d) && CompareDouble(DoubleOf(G15(d)), d) ==> GeneralShape(PrintedNumeral(d), 15)
    ensures !IsInt(d) ==> GeneralShape(PrintedNumeral(d), 17)
  {
    hide DoubleOf, WellFormed, NumeralText;
    if IsInt(d) {
      IntNumeralValue(Saturate(d));
      IntReadsBack(d);
    }
  }

  lemma IntReadsBack(d: real)
    requires IsInt(d)
    ensures CompareDouble(DoubleOf(PrintedNumeral(d)), d)
  {
    IntsReadBack(d);
    assert Abs(0.0) == 0.0 && (if Abs(d) > Abs(d) then Abs(d) else Abs(d)) * EPSILON >= 0.0;
  }
}
