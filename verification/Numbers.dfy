/**
 Numbers. A finite double is a real. The C library is left open where it may choose: how
 `strtod` rounds, and which digits `%1.15g` and `%1.17g` write. Ints print with `%d`.
 */
module Numbers {

  const INT_MAX: int := 0x7FFF_FFFF
  const INT_MIN: int := -0x8000_0000
  // Longest numeral `parse_number` copies into its 64-byte buffer.
  const MAX_NUMERAL: nat := 63

  predicate Digit(c: char) {
    '0' <= c <= '9'
  }

  predicate NumberChar(c: char) {
    Digit(c) || c == '+' || c == '-' || c == 'e' || c == 'E' || c == '.'
  }

  // ---- Shape of a numeral ----

  datatype Exponent = NoExponent | Exponent(mark: char, sign: string, digits: string)

  // sign whole [ "." frac ] [ e [sign] digits ]
  datatype Numeral = Numeral(sign: string, whole: string, dot: bool, frac: string, exp: Exponent)

  predicate IsSign(s: string) {
    s == "" || s == "+" || s == "-"
  }

  predicate AllDigits(s: string) {
    forall i | 0 <= i < |s| :: Digit(s[i])
  }

  // What `strtod` reads completely.
  predicate WellFormed(n: Numeral) {
    && IsSign(n.sign) && AllDigits(n.whole) && AllDigits(n.frac)
    && (n.whole != "" || n.frac != "")
    && (!n.dot ==> n.frac == "")
    && (n.exp.Exponent? ==>
          (n.exp.mark == 'e' || n.exp.mark == 'E') && IsSign(n.exp.sign) && AllDigits(n.exp.digits)
            && n.exp.digits != "")
  }

  // RFC 8259 section 6.
  predicate RfcNumeral(n: Numeral) {
    && WellFormed(n) && n.sign != "+"
    && n.whole != "" && (n.whole[0] == '0' ==> n.whole == "0")
    && (n.dot ==> n.frac != "")
  }

  function ExponentText(e: Exponent): string {
    if e.NoExponent? then "" else [e.mark] + (e.sign + e.digits)
  }

  function FractionText(n: Numeral): string {
    if n.dot then "." + n.frac else ""
  }

  function NumeralText(n: Numeral): string {
    n.sign + (n.whole + (FractionText(n) + ExponentText(n.exp)))
  }

  // ---- strtod ----

  function DigitRun(t: string): (d: string)
    ensures |d| <= |t| && d == t[..|d|]
    ensures AllDigits(d)
    ensures |d| < |t| ==> !Digit(t[|d|])
  {
    if t == "" || !Digit(t[0]) then "" else [t[0]] + DigitRun(t[1..])
  }

  function SignOf(t: string): (s: string)
    ensures |s| <= |t| && s == t[..|s|] && IsSign(s)
  {
    if t != "" && (t[0] == '+' || t[0] == '-') then t[..1] else ""
  }

  function ReadExponent(t: string): (e: Exponent)
    ensures |ExponentText(e)| <= |t| && ExponentText(e) == t[..|ExponentText(e)|]
    ensures e.Exponent? ==> (e.mark == 'e' || e.mark == 'E') && IsSign(e.sign) && AllDigits(e.digits) && e.digits != ""
  {
    if t == "" || !(t[0] == 'e' || t[0] == 'E') then NoExponent
    else
      var sign := SignOf(t[1..]);
      var digits := DigitRun(t[1..][|sign|..]);
      if digits == "" then NoExponent
      else
        assert t[..1 + |sign| + |digits|] == [t[0]] + (sign + digits);
        Exponent(t[0], sign, digits)
  }

  datatype Reading = NoNumber | Reading(numeral: Numeral)

  // The longest numeral `t` begins with.
  function Strtod(t: string): Reading {
    var sign := SignOf(t);
    var t1 := t[|sign|..];
    var whole := DigitRun(t1);
    var t2 := t1[|whole|..];
    var dot := t2 != "" && t2[0] == '.';
    var frac := if dot then DigitRun(t2[1..]) else "";
    if whole == "" && frac == "" then NoNumber
    else
      var t3 := if dot then t2[1 + |frac|..] else t2;
      Reading(Numeral(sign, whole, dot, frac, ReadExponent(t3)))
  }

  lemma StrtodIsPrefix(t: string)
    requires Strtod(t).Reading?
    ensures WellFormed(Strtod(t).numeral)
    ensures NumeralText(Strtod(t).numeral) <= t
    ensures NumeralText(Strtod(t).numeral) != ""
  {
    hide DigitRun, SignOf, ReadExponent;
    var n := Strtod(t).numeral;
    var t1 := t[|n.sign|..];
    var t2 := t1[|n.whole|..];
    var f := FractionText(n);
    assert f <= t2 && ExponentText(n.exp) <= t2[|f|..] by {
      if n.dot {
        assert t2[..|f|] == f;
        assert t2[1 + |n.frac|..] == t2[|f|..];
      } else {
        assert t2[0..] == t2;
      }
    }
    PrefixThen(t2, f, ExponentText(n.exp));
    PrefixThen(t1, n.whole, f + ExponentText(n.exp));
    PrefixThen(t, n.sign, n.whole + (f + ExponentText(n.exp)));
  }

  lemma PrefixThen(t: string, a: string, b: string)
    requires a <= t && b <= t[|a|..]
    ensures a + b <= t
  {
    assert t[..|a + b|] == a + b;
  }

  // ---- strtod reads the longest numeral ----

  predicate Begins(n: Numeral, t: string) {
    WellFormed(n) && NumeralText(n) <= t
  }

  // `n` begins `t`, and no longer numeral does.
  ghost predicate Longest(n: Numeral, t: string) {
    Begins(n, t) && forall m: Numeral | Begins(m, t) :: |NumeralText(m)| <= |NumeralText(n)|
  }

  lemma {:induction false} DigitRunCovers(d: string, t: string)
    requires AllDigits(d) && d <= t
    ensures |d| <= |DigitRun(t)| && (|d| < |DigitRun(t)| ==> |d| < |t| && Digit(t[|d|]))
  {
    if d != "" {
      assert d[1..] <= t[1..];
      DigitRunCovers(d[1..], t[1..]);
    }
  }

  lemma SignCovers(sign: string, t: string)
    requires IsSign(sign) && sign <= t && |sign| < |t| && t[|sign|] != '+' && t[|sign|] != '-'
    ensures SignOf(t) == sign
  {
  }

  lemma ExponentCovers(e: Exponent, t: string)
    requires e.Exponent? ==> (e.mark == 'e' || e.mark == 'E') && IsSign(e.sign) && AllDigits(e.digits) && e.digits != ""
    requires ExponentText(e) <= t
    ensures |ExponentText(e)| <= |ExponentText(ReadExponent(t))|
  {
    if e.Exponent? {
      var u := t[1..];
      assert e.sign + e.digits <= u;
      assert u[|e.sign|] == e.digits[0];
      SignCovers(e.sign, u);
      assert e.digits <= u[|e.sign|..];
      DigitRunCovers(e.digits, u[|e.sign|..]);
    }
  }

  lemma NothingBefore(e: string, v: string)
    requires e <= v && v != "" && Digit(v[0]) && (e != "" ==> !Digit(e[0]))
    ensures e == ""
  {
  }

  lemma DropPrefix(a: string, b: string, t: string)
    requires a + b <= t
    ensures a <= t && b <= t[|a|..]
  {
    assert (a + b)[|a|..] == b;
  }

  // Length of the fraction and exponent strtod finds.
  function TailLength(t: string): nat {
    if t != "" && t[0] == '.' then
      var frac := DigitRun(t[1..]);
      1 + |frac| + |ExponentText(ReadExponent(t[1 + |frac|..]))|
    else |ExponentText(ReadExponent(t))|
  }

  function TailOf(n: Numeral): string {
    FractionText(n) + ExponentText(n.exp)
  }

  // Digits and an exponent, where the digits may go on.
  lemma DigitsCover(digits: string, e: Exponent, t: string)
    requires AllDigits(digits) && digits + ExponentText(e) <= t
    requires e.Exponent? ==> (e.mark == 'e' || e.mark == 'E') && IsSign(e.sign) && AllDigits(e.digits) && e.digits != ""
    ensures var run := DigitRun(t);
            && |digits| <= |run|
            && |digits| + |ExponentText(e)| <= |run| + |ExponentText(ReadExponent(t[|run|..]))|
  {
    hide DigitRun, ReadExponent;
    DropPrefix(digits, ExponentText(e), t);
    DigitRunCovers(digits, t);
    if |digits| < |DigitRun(t)| {
      NothingBefore(ExponentText(e), t[|digits|..]);
    } else {
      ExponentCovers(e, t[|digits|..]);
    }
  }

  lemma FractionCovers(n: Numeral, t: string)
    requires WellFormed(n) && n.dot && TailOf(n) <= t
    ensures |TailOf(n)| <= TailLength(t) && t[0] == '.' && |n.frac| <= |DigitRun(t[1..])|
  {
    hide DigitRun, ReadExponent, ExponentText, AllDigits;
    var run := DigitRun(t[1..]);
    assert TailOf(n) == "." + (n.frac + ExponentText(n.exp));
    DropPrefix(".", n.frac + ExponentText(n.exp), t);
    DigitsCover(n.frac, n.exp, t[1..]);
    assert t[1..][|run|..] == t[1 + |run|..];
  }

  lemma TailCovers(n: Numeral, t: string)
    requires WellFormed(n) && TailOf(n) <= t
    ensures |TailOf(n)| <= TailLength(t)
  {
    hide DigitRun, ReadExponent;
    if n.dot {
      FractionCovers(n, t);
    } else {
      assert TailOf(n) == ExponentText(n.exp);
      ExponentCovers(n.exp, t);
    }
  }

  lemma TailIsNoDigit(n: Numeral)
    requires WellFormed(n)
    ensures TailOf(n) != "" ==> !Digit(TailOf(n)[0])
  {
  }

  // Behind the sign.
  lemma WholeCovers(n: Numeral, t: string)
    requires WellFormed(n) && n.whole + TailOf(n) <= t
    ensures |n.whole| <= |DigitRun(t)| && |n.whole| + |TailOf(n)| <= |DigitRun(t)| + TailLength(t[|DigitRun(t)|..])
  {
    hide DigitRun, TailLength, TailOf;
    DropPrefix(n.whole, TailOf(n), t);
    DigitRunCovers(n.whole, t);
    if |n.whole| < |DigitRun(t)| {
      TailIsNoDigit(n);
      NothingBefore(TailOf(n), t[|n.whole|..]);
    } else {
      TailCovers(n, t[|DigitRun(t)|..]);
    }
  }

  lemma PointFirst(n: Numeral, t: string)
    requires WellFormed(n) && n.whole == "" && n.whole + TailOf(n) <= t
    ensures t != "" && t[0] == '.' && DigitRun(t[1..]) != ""
  {
    hide DigitRun, TailLength;
    assert n.whole + TailOf(n) == TailOf(n);
    FractionCovers(n, t);
  }

  lemma StrtodLength(t: string)
    ensures var t1 := t[|SignOf(t)|..];
            var whole := DigitRun(t1);
            var t2 := t1[|whole|..];
            && (Strtod(t).Reading? ==> |NumeralText(Strtod(t).numeral)| == |SignOf(t)| + |whole| + TailLength(t2))
            && (Strtod(t).Reading? <==> whole != "" || (t2 != "" && t2[0] == '.' && DigitRun(t2[1..]) != ""))
  {
    hide DigitRun, ReadExponent, SignOf;
  }

  lemma StrtodIsLongest(t: string, m: Numeral)
    requires Begins(m, t)
    ensures Strtod(t).Reading? && |NumeralText(m)| <= |NumeralText(Strtod(t).numeral)|
  {
    hide DigitRun, SignOf, ReadExponent, TailLength, Strtod;
    var body := m.whole + TailOf(m);
    assert NumeralText(m) == m.sign + body;
    assert body != "" && body[0] != '+' && body[0] != '-';
    DropPrefix(m.sign, body, t);
    assert t[|m.sign|] == t[|m.sign|..][0] == body[0];
    SignCovers(m.sign, t);
    var t1 := t[|m.sign|..];
    WholeCovers(m, t1);
    StrtodLength(t);
    assert t1[0..] == t1;
    if DigitRun(t1) == "" {
      PointFirst(m, t1);
    }
  }

  // strtod, exactly: the longest numeral in front.
  lemma StrtodExactly(t: string, n: Numeral)
    ensures Strtod(t) == Reading(n) <==> Longest(n, t)
  {
    hide Strtod, NumeralText, WellFormed;
    if Strtod(t) == Reading(n) {
      StrtodIsPrefix(t);
      forall m: Numeral | Begins(m, t)
        ensures |NumeralText(m)| <= |NumeralText(n)|
      {
        StrtodIsLongest(t, m);
      }
    }
    if Longest(n, t) {
      StrtodIsLongest(t, n);
      StrtodIsPrefix(t);
      var r := Strtod(t).numeral;
      assert Begins(r, t);
      assert NumeralText(r) == t[..|NumeralText(r)|] == NumeralText(n);
      StrtodReadsNumeral(n);
      StrtodReadsNumeral(r);
    }
  }

  lemma SignReads(sign: string, t: string)
    requires IsSign(sign) && (t != "" ==> t[0] != '+' && t[0] != '-')
    ensures SignOf(sign + t) == sign && (sign + t)[|sign|..] == t
  {
    if sign == "" {
      assert sign + t == t;
    }
  }

  lemma ExponentReads(e: Exponent)
    requires e.Exponent? ==> (e.mark == 'e' || e.mark == 'E') && IsSign(e.sign) && AllDigits(e.digits) && e.digits != ""
    ensures ReadExponent(ExponentText(e)) == e
  {
    if e.Exponent? {
      var t := ExponentText(e);
      assert t[1..] == e.sign + e.digits;
      SignReads(e.sign, e.digits);
      DigitRunStops(e.digits, "");
      assert e.digits + "" == e.digits;
    }
  }

  lemma FractionReads(n: Numeral)
    requires WellFormed(n)
    ensures var e, f := ExponentText(n.exp), FractionText(n);
            var t := f + e;
            && t[|f|..] == e
            && n.dot == (t != "" && t[0] == '.')
            && (n.dot ==> DigitRun(t[1..]) == n.frac)
            && (t != "" ==> !Digit(t[0]) && (t[0] == '.' || t[0] == 'e' || t[0] == 'E'))
  {
    var e := ExponentText(n.exp);
    if n.dot {
      assert (FractionText(n) + e)[1..] == n.frac + e;
      DigitRunStops(n.frac, e);
    } else {
      assert "" + e == e;
    }
  }

  // Reading back a numeral's own text yields that numeral.
  lemma StrtodReadsNumeral(n: Numeral)
    requires WellFormed(n)
    ensures Strtod(NumeralText(n)) == Reading(n)
  {
    var t2 := FractionText(n) + ExponentText(n.exp);
    FractionReads(n);
    ExponentReads(n.exp);
    DigitRunStops(n.whole, t2);
    assert (n.whole + t2)[|n.whole|..] == t2;
    assert n.whole + t2 != "" && (n.whole + t2)[0] != '+' && (n.whole + t2)[0] != '-';
    SignReads(n.sign, n.whole + t2);
    if n.dot {
      assert t2[1 + |n.frac|..] == t2[|FractionText(n)|..];
    }
  }

  lemma {:induction false} DigitRunStops(d: string, t: string)
    requires AllDigits(d) && (t != "" ==> !Digit(t[0]))
    ensures DigitRun(d + t) == d
  {
    if d != "" {
      assert (d + t)[1..] == d[1..] + t;
      DigitRunStops(d[1..], t);
    } else {
      assert d + t == t;
    }
  }

  // The bytes parse_number copies: number characters, at most `room` of them.
  function NumberRun(t: string, room: nat): (r: string)
    ensures |r| <= |t| && |r| <= room && r == t[..|r|]
    ensures forall i | 0 <= i < |r| :: NumberChar(r[i])
    ensures |r| < |t| && |r| < room ==> !NumberChar(t[|r|])
  {
    if t == "" || room == 0 || !NumberChar(t[0]) then "" else [t[0]] + NumberRun(t[1..], room - 1)
  }

  lemma NumeralIsNumberChars(n: Numeral)
    requires WellFormed(n)
    ensures forall i | 0 <= i < |NumeralText(n)| :: NumberChar(NumeralText(n)[i])
  {
  }

  lemma NumberRunStops(r: string, t: string)
    requires |r| <= MAX_NUMERAL && (forall i | 0 <= i < |r| :: NumberChar(r[i]))
    requires t != "" && !NumberChar(t[0])
    ensures NumberRun(r + t, MAX_NUMERAL) == r
  {
    NumberRunOn(r, t, MAX_NUMERAL);
  }

  lemma {:induction false} NumberRunOn(r: string, t: string, room: nat)
    requires |r| <= room && (forall i | 0 <= i < |r| :: NumberChar(r[i]))
    requires t != "" && !NumberChar(t[0])
    ensures NumberRun(r + t, room) == r
  {
    if r == "" {
      assert r + t == t;
    } else {
      assert (r + t)[1..] == r[1..] + t;
      NumberRunOn(r[1..], t, room - 1);
    }
  }

  // ---- Values ----

  function DigitsValue(d: string): (v: nat)
    requires AllDigits(d)
  {
    if d == "" then 0 else DigitsValue(d[..|d| - 1]) * 10 + (d[|d| - 1] as int - '0' as int)
  }

  function Signed(sign: string, v: real): real {
    if sign == "-" then -v else v
  }

  function SignedInt(sign: string, v: int): int {
    if sign == "-" then -v else v
  }

  function Power10(e: int): (p: real)
    ensures p > 0.0
    decreases if e < 0 then -e else e
  {
    if e == 0 then 1.0 else if e > 0 then 10.0 * Power10(e - 1) else Power10(e + 1) / 10.0
  }

  function NumeralValue(n: Numeral): real
    requires WellFormed(n)
  {
    var e := if n.exp.NoExponent? then 0 else SignedInt(n.exp.sign, DigitsValue(n.exp.digits));
    Signed(n.sign, DigitsValue(n.whole + n.frac) as real * Power10(e - |n.frac|))
  }

  // Rounding to a double: any function that leaves the ints alone.
  type Rounding = f: real -> real | forall i: int :: INT_MIN <= i <= INT_MAX ==>
    f(i as real) == i as real witness d => d
  const NEAREST: Rounding

  // What strtod makes of a numeral.
  function DoubleOf(n: Numeral): real
    requires WellFormed(n)
  {
    NEAREST(NumeralValue(n))
  }

  // `valueint`: truncation toward zero with saturation.
  function Saturate(d: real): (i: int)
    ensures INT_MIN <= i <= INT_MAX
  {
    if d >= INT_MAX as real then INT_MAX
    else if d <= INT_MIN as real then INT_MIN
    else if d >= 0.0 then d.Floor
    else -((-d).Floor)
  }

  // The numbers printed with "%d": `d == (double)item->valueint`.
  predicate IsInt(d: real) {
    d == Saturate(d) as real
  }

  // ---- Decimal text ----

  function DigitOf(d: nat): char
    requires d < 10
  {
    (d + '0' as int) as char
  }

  function NatText(n: nat): (t: string)
    ensures t != "" && AllDigits(t)
    ensures t[0] == '0' ==> n == 0
    ensures DigitsValue(t) == n
  {
    if n < 10 then
      assert [DigitOf(n)][..0] == "";
      [DigitOf(n)]
    else
      var t := NatText(n / 10);
      assert (t + [DigitOf(n % 10)])[..|t|] == t;
      t + [DigitOf(n % 10)]
  }

  function IntText(i: int): (t: string)
    ensures t != ""
  {
    if i < 0 then "-" + NatText(-i) else NatText(i)
  }

  // The numeral `%d` writes.
  function IntNumeral(i: int): (n: Numeral)
    ensures RfcNumeral(n) && NumeralText(n) == IntText(i)
  {
    var n := Numeral(if i < 0 then "-" else "", NatText(if i < 0 then -i else i), false, "", NoExponent);
    assert NatText(0) == "0";
    n
  }

  lemma IntNumeralValue(i: int)
    ensures NumeralValue(IntNumeral(i)) == i as real
  {
    var n := IntNumeral(i);
    assert n.whole + n.frac == n.whole;
    assert Power10(0) == 1.0;
    if i < 0 {
      assert -((-i) as real) == i as real;
    }
  }

  lemma {:induction false} NatTextLength(n: nat, k: nat)
    requires n < Ten(k + 1)
    ensures |NatText(n)| <= k + 1
    decreases k
  {
    if n >= 10 {
      NatTextLength(n / 10, k - 1);
    }
  }

  function Ten(k: nat): nat {
    if k == 0 then 1 else 10 * Ten(k - 1)
  }

  // A 32-bit integer prints as at most eleven characters.
  lemma IntTextIsShort(i: int)
    requires INT_MIN <= i <= INT_MAX
    ensures |IntText(i)| <= 11
  {
    assert Ten(10) == 10 * (10 * (10 * (10 * (10 * (10 * (10 * (10 * (10 * (10 * Ten(0)))))))))) ;
    NatTextLength(if i < 0 then -i else i, 9);
  }

  // ---- Text of a double ----

  // print_number gives sprintf 26 bytes.
  const MAX_PRINTED: nat := 25

  const ZERO_NUMERAL := Numeral("", "0", false, "", NoExponent)

  // The shape of `%g` with that precision, for a number that is not zero: plain, with at most
  // three zeros behind the point before the first digit that counts, or with one digit in
  // front of the point and an exponent of two or three digits.
  predicate GeneralShape(n: Numeral, precision: nat) {
    && RfcNumeral(n)
    && if n.exp.Exponent? then |n.whole| == 1 && |n.frac| < precision && |n.exp.sign| == 1 && 2 <= |n.exp.digits| <= 3
       else if n.whole == "0" then |n.frac| <= 3 + precision
       else |n.whole| + |n.frac| <= precision
  }

  // `%1.15g` and `%1.17g`.
  type Format15 = f: real -> Numeral | forall d: real :: GeneralShape(f(d), 15) witness d => ZERO_NUMERAL
  type Format17 = f: real -> Numeral | forall d: real :: GeneralShape(f(d), 17) witness d => ZERO_NUMERAL
  const G15: Format15
  const G17: Format17

  // A sign, seventeen digits, the point, and "e", a sign and three digits.
  const MAX_GENERAL: nat := 24

  lemma GeneralIsShort(n: Numeral, precision: nat)
    requires GeneralShape(n, precision) && precision <= 17
    ensures |NumeralText(n)| <= MAX_GENERAL
  {
    assert |FractionText(n)| <= 1 + |n.frac|;
    assert |NumeralText(n)| == |n.sign| + |n.whole| + |FractionText(n)| + |ExponentText(n.exp)|;
  }

  // DBL_EPSILON
  const EPSILON: real := 1.0 / 4503599627370496.0

  function Abs(x: real): real {
    if x >= 0.0 then x else -x
  }

  // compare_double
  function CompareDouble(a: real, b: real): bool {
    Abs(a - b) <= (if Abs(a) > Abs(b) then Abs(a) else Abs(b)) * EPSILON
  }

  // The distance is at most 2^-52 of one of the two, written out.
  predicate Close(a: real, b: real) {
    var gap := if a < b then b - a else a - b;
    var scaled := gap * 4503599627370496.0;
    scaled <= a || scaled <= -a || scaled <= b || scaled <= -b
  }

  lemma CompareDoubleExactly(a: real, b: real)
    ensures CompareDouble(a, b) <==> Close(a, b)
  {
    var m := if Abs(a) > Abs(b) then Abs(a) else Abs(b);
    var gap := Abs(a - b);
    assert m * EPSILON == m / 4503599627370496.0;
  }

  // The numeral print_number writes: seventeen digits only when fifteen do not read back.
  function PrintedNumeral(d: real): (n: Numeral)
    ensures RfcNumeral(n)
  {
    if IsInt(d) then IntNumeral(Saturate(d))
    else if CompareDouble(DoubleOf(G15(d)), d) then G15(d)
    else G17(d)
  }

  lemma PrintedIsShort(d: real)
    ensures |NumeralText(PrintedNumeral(d))| <= MAX_GENERAL < MAX_PRINTED
  {
    hide NumeralText, CompareDouble, DoubleOf, GeneralShape;
    IntTextIsShort(Saturate(d));
    GeneralIsShort(G15(d), 15);
    GeneralIsShort(G17(d), 17);
  }

  // Reading the printed number gives it back. True of every int.
  predicate ReadsBack(d: real) {
    DoubleOf(PrintedNumeral(d)) == d
  }

  lemma IntsReadBack(d: real)
    requires IsInt(d)
    ensures ReadsBack(d)
  {
    IntNumeralValue(Saturate(d));
  }
}
