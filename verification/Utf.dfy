/**
 Hexadecimal digits, UTF-16 escape literals and UTF-8
 (RFC 8259 section 7, RFC 2781 section 2.2, RFC 3629 section 3).
 */
module Utf {
  import opened Bits

  predicate HexDigit(c: char) {
    '0' <= c <= '9' || 'A' <= c <= 'F' || 'a' <= c <= 'f'
  }

  function HexValue(c: char): (h: nat)
    requires HexDigit(c)
    ensures h < 16
  {
    if '0' <= c <= '9' then c as int - '0' as int
    else if 'A' <= c <= 'F' then 10 + c as int - 'A' as int
    else 10 + c as int - 'a' as int
  }

  predicate FourHex(t: string) {
    |t| == 4 && HexDigit(t[0]) && HexDigit(t[1]) && HexDigit(t[2]) && HexDigit(t[3])
  }

  // The value of four characters after `\u`; one bad digit makes the whole value 0.
  function Hex4(t: string): (h: nat)
    requires |t| == 4
    ensures h < 0x10000
  {
    if FourHex(t) then
      ((HexValue(t[0]) * 16 + HexValue(t[1])) * 16 + HexValue(t[2])) * 16 + HexValue(t[3])
    else 0
  }

  // Code units and code points

  predicate HighSurrogate(u: nat) {
    0xD800 <= u <= 0xDBFF
  }

  predicate LowSurrogate(u: nat) {
    0xDC00 <= u <= 0xDFFF
  }

  predicate ScalarValue(p: nat) {
    p <= 0x10FFFF && !(0xD800 <= p <= 0xDFFF)
  }

  function Combine(high: nat, low: nat): (p: nat)
    requires HighSurrogate(high) && LowSurrogate(low)
    ensures 0x10000 <= p <= 0x10FFFF
  {
    0x10000 + (high % 0x400) * 0x400 + low % 0x400
  }

  // RFC 2781 section 2.1: how a code point above 0xFFFF is split into two units.
  function SplitHigh(p: nat): nat
    requires 0x10000 <= p <= 0x10FFFF
  {
    0xD800 + (p - 0x10000) / 0x400
  }

  function SplitLow(p: nat): nat
    requires 0x10000 <= p <= 0x10FFFF
  {
    0xDC00 + (p - 0x10000) % 0x400
  }

  lemma CombineUndoesSplit(p: nat)
    requires 0x10000 <= p <= 0x10FFFF
    ensures HighSurrogate(SplitHigh(p)) && LowSurrogate(SplitLow(p))
    ensures Combine(SplitHigh(p), SplitLow(p)) == p
  {
    var q := p - 0x10000;
    assert q / 0x400 < 0x400;
    assert SplitHigh(p) % 0x400 == q / 0x400;
    assert SplitLow(p) % 0x400 == q % 0x400;
  }

  // UTF-8

  function Utf8Length(p: nat): (n: nat)
    requires p <= 0x10FFFF
    ensures 1 <= n <= 4
  {
    if p < 0x80 then 1 else if p < 0x800 then 2 else if p < 0x10000 then 3 else 4
  }

  function LeadMark(n: nat): nat
    requires 1 <= n <= 4
  {
    if n == 1 then 0 else if n == 2 then 0xC0 else if n == 3 then 0xE0 else 0xF0
  }

  // The bytes the decoder stores for a code point: continuation bytes from the last one
  // backwards, each taking six bits, then the lead byte with what is left.
  function Utf8(p: nat): (bytes: string)
    requires p <= 0x10FFFF
    ensures |bytes| == Utf8Length(p)
  {
    var n := Utf8Length(p);
    if n == 1 then [p as char]
    else if n == 2 then [Lead(p / 64, 2), Continuation(p)]
    else if n == 3 then [Lead(p / 64 / 64, 3), Continuation(p / 64), Continuation(p)]
    else [Lead(p / 64 / 64 / 64, 4), Continuation(p / 64 / 64), Continuation(p / 64), Continuation(p)]
  }

  function Continuation(p: nat): char {
    (0x80 + p % 64) as char
  }

  function Lead(p: nat, n: nat): char
    requires 1 <= n <= 4
    requires n == 1 ==> p < 0x80
    requires n == 2 ==> p < 0x20
    requires n == 3 ==> p < 0x10
    requires n == 4 ==> p < 0x08
  {
    (LeadMark(n) + p) as char
  }

  // ---- The same in bits ----

  // `0x10000 + (((high & 0x3FF) << 10) | (low & 0x3FF))`
  lemma CombineInBits(high: nat, low: nat)
    requires HighSurrogate(high) && LowSurrogate(low)
    ensures 0x10000 + Or(And(high, 0x3FF) * 0x400, And(low, 0x3FF)) == Combine(high, low)
  {
    hide And, Or;
    assert Pow2(10) == 0x400;
    MaskIsRemainder(high, 10);
    MaskIsRemainder(low, 10);
    OrIsSum(high % 0x400, 10, low % 0x400);
  }

  // `(p | 0x80) & 0xBF`: six bits of `p`, the next one cleared, the top one set.
  lemma ContinuationInBits(p: nat)
    ensures And(Or(p, 0x80), 0xBF) == 0x80 + p % 64
  {
    hide And, Or;
    SetAndMask(p, 0x40, 0x5F);
    SetAndMask(p / 2, 0x20, 0x2F);
    SetAndMask(p / 4, 0x10, 0x17);
    SetAndMask(p / 8, 0x08, 0x0B);
    SetAndMask(p / 16, 0x04, 0x05);
    SetAndMask(p / 32, 0x02, 0x02);
    TopBits(p / 64);
  }

  lemma TopBits(p: nat)
    ensures And(Or(p, 2), 2) == 2
  {
    var or := Or(p, 2);
    assert or / 2 == Or(p / 2, 1);
    assert or / 2 % 2 == 1;
    assert And(or / 2, 1) == 1 + 2 * And(or / 2 / 2, 0);
    assert And(or, 2) == 2 * And(or / 2, 1);
  }

  // `(p | mark) & 0xFF`
  lemma LeadInBits(p: nat, n: nat)
    requires 2 <= n <= 4 && LeadMark(n) + p < 0x100
    ensures And(Or(p, LeadMark(n)), 0xFF) == LeadMark(n) + p
  {
    hide And, Or;
    assert Pow2(8) == 0x100 && Pow2(6) == 64 && Pow2(5) == 32 && Pow2(4) == 16;
    OrCommutes(p, LeadMark(n));
    OrIsSum(if n == 2 then 3 else if n == 3 then 7 else 15, 8 - n, p);
    MaskIsRemainder(LeadMark(n) + p, 8);
  }

  // `p & 0x7F`
  lemma AsciiInBits(p: nat)
    ensures And(p, 0x7F) == p % 0x80
  {
    hide And;
    assert Pow2(7) == 0x80;
    MaskIsRemainder(p, 7);
  }

  // RFC 3629 section 3, read as a decoder: the code point of one complete, shortest-form
  // sequence, or nothing.
  function Decode8(b: string): (p: int)
    ensures p == -1 || (0 <= p && ScalarValue(p))
  {
    if |b| == 1 && b[0] as int < 0x80 then b[0] as int
    else if |b| == 2 && 0xC0 <= b[0] as int < 0xE0 && Tail(b[1]) then
      var p := (b[0] as int - 0xC0) * 64 + (b[1] as int - 0x80);
      if 0x80 <= p then p else -1
    else if |b| == 3 && 0xE0 <= b[0] as int < 0xF0 && Tail(b[1]) && Tail(b[2]) then
      var p := ((b[0] as int - 0xE0) * 64 + (b[1] as int - 0x80)) * 64 + (b[2] as int - 0x80);
      if 0x800 <= p && ScalarValue(p) then p else -1
    else if |b| == 4 && 0xF0 <= b[0] as int < 0xF8 && Tail(b[1]) && Tail(b[2]) && Tail(b[3]) then
      var p := (((b[0] as int - 0xF0) * 64 + (b[1] as int - 0x80)) * 64 + (b[2] as int - 0x80)) * 64
        + (b[3] as int - 0x80);
      if 0x10000 <= p <= 0x10FFFF then p else -1
    else -1
  }

  predicate Tail(c: char) {
    0x80 <= c as int < 0xC0
  }

  lemma Utf8Decodes(p: nat)
    requires ScalarValue(p)
    ensures Decode8(Utf8(p)) == p
  {
    assert p == p / 64 * 64 + p % 64;
    assert p / 64 == p / 64 / 64 * 64 + p / 64 % 64;
    assert p / 64 / 64 == p / 64 / 64 / 64 * 64 + p / 64 / 64 % 64;
  }

  lemma Decode8IsInjective(a: string, b: string)
    requires Decode8(a) == Decode8(b) != -1
    ensures a == b
  {
  }

  // A standard decoder recovers the code point, and no other byte sequence means it.
  lemma Utf8IsUniqueShortestForm(p: nat, other: string)
    requires ScalarValue(p)
    ensures Decode8(Utf8(p)) == p
    ensures Decode8(other) == p ==> other == Utf8(p)
  {
    Utf8Decodes(p);
    if Decode8(other) == p {
      Decode8IsInjective(other, Utf8(p));
    }
  }
}
