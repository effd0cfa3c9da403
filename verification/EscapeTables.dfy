/**
 The escapes of RFC 8259 section 7 against tables written out: hexadecimal digits of either
 case, the eight letters, and what the printer writes for every character.
 */
module EscapeTables {
  import opened Utf
  import opened StringLiteral

  const UPPER: string := "0123456789ABCDEF"
  const LOWER: string := "0123456789abcdef"

  // The letters behind a backslash, and the codes they stand for.
  const LETTERS: string := "\"\\/bfnrt"
  const CODES: seq<int> := [0x22, 0x5C, 0x2F, 0x08, 0x0C, 0x0A, 0x0D, 0x09]

  // ---- Hexadecimal digits ----

  predicate DigitFor(c: char, h: nat)
    requires h < 16
  {
    c == UPPER[h] || c == LOWER[h]
  }

  // Four digits, each in either case, from the highest to the lowest.
  predicate SpellsUnit(t: string, u: nat)
    requires u < 0x10000
  {
    && |t| == 4
    && DigitFor(t[0], u / 4096) && DigitFor(t[1], u / 256 % 16)
    && DigitFor(t[2], u / 16 % 16) && DigitFor(t[3], u % 16)
  }

  lemma DigitExactly(c: char, h: nat)
    requires h < 16
    ensures DigitFor(c, h) <==> HexDigit(c) && HexValue(c) == h
  {
  }

  lemma NibblesExactly(u: nat, a: nat, b: nat, c: nat, d: nat)
    requires u < 0x10000 && a < 16 && b < 16 && c < 16 && d < 16
    ensures u == ((a * 16 + b) * 16 + c) * 16 + d <==>
            a == u / 4096 && b == u / 256 % 16 && c == u / 16 % 16 && d == u % 16
  {
  }

  // Four characters have the value they spell.
  lemma Hex4Exactly(t: string, u: nat)
    requires |t| == 4 && u < 0x10000
    ensures SpellsUnit(t, u) <==> FourHex(t) && Hex4(t) == u
  {
    hide HexDigit, HexValue, DigitFor;
    DigitExactly(t[0], u / 4096);
    DigitExactly(t[1], u / 256 % 16);
    DigitExactly(t[2], u / 16 % 16);
    DigitExactly(t[3], u % 16);
    if FourHex(t) {
      NibblesExactly(u, HexValue(t[0]), HexValue(t[1]), HexValue(t[2]), HexValue(t[3]));
    }
  }

  // Characters that spell nothing count as zero.
  lemma NoHexIsZero(t: string)
    requires |t| == 4 && forall u | 0 <= u < 0x10000 :: !SpellsUnit(t, u)
    ensures !FourHex(t) && Hex4(t) == 0
  {
    hide HexDigit, HexValue, SpellsUnit;
    Hex4Exactly(t, Hex4(t));
  }

  // ---- `\u` ----

  // The escape of a code point: one unit, or the two of RFC 2781 section 2.1.
  predicate EscapesCodePoint(t: string, p: nat)
    requires p <= 0x10FFFF
  {
    if p < 0x10000 then |t| == 6 && t[..2] == "\\u" && SpellsUnit(t[2..], p)
    else
      && |t| == 12
      && t[..2] == "\\u" && SpellsUnit(t[2..6], 0xD800 + (p - 0x10000) / 0x400)
      && t[6..8] == "\\u" && SpellsUnit(t[8..], 0xDC00 + (p - 0x10000) % 0x400)
  }

  // In front of anything it decodes to bytes that a UTF-8 decoder reads as the code point.
  lemma EscapeDecodes(t: string, p: nat, rest: string)
    requires ScalarValue(p) && EscapesCodePoint(t, p)
    ensures Decode8(Utf8(p)) == p
    ensures Decode(t + rest) == Prefixed(Utf8(p), Decode(rest)) && (Closed(rest) ==> Closed(t + rest))
  {
    hide Decode, Closed, Utf8, Decode8, Hex4, FourHex, SpellsUnit;
    Utf8Decodes(p);
    if p < 0x10000 {
      Hex4Exactly(t[2..], p);
      ScalarDecodes(t[2..], rest);
      assert [BACKSLASH, 'u'] + t[2..] + rest == t + rest;
    } else {
      CombineUndoesSplit(p);
      Hex4Exactly(t[2..6], SplitHigh(p));
      Hex4Exactly(t[8..], SplitLow(p));
      PairDecodes(t[2..6], t[8..], rest);
      assert [BACKSLASH, 'u'] + t[2..6] + [BACKSLASH, 'u'] + t[8..] == t;
    }
  }

  predicate UnitEscapeFirst(t: string, u: nat)
    requires u < 0x10000
  {
    |t| >= 6 && t[..2] == "\\u" && SpellsUnit(t[2..6], u)
  }

  lemma LowFirst(t: string)
    requires LowEscapeFirst(t)
    ensures 0xDC00 <= Hex4(t[2..6]) <= 0xDFFF && UnitEscapeFirst(t, Hex4(t[2..6]))
  {
    Hex4Exactly(t[2..6], Hex4(t[2..6]));
  }

  // Half a pair without the other half is refused wherever it stands.
  lemma HalfEscapeIsRefused(ps: seq<Piece>, t: string, u: nat, rest: string)
    requires AllLegal(ps) && 0xD800 <= u <= 0xDFFF && |t| == 6 && UnitEscapeFirst(t, u)
    requires u < 0xDC00 ==> forall low | 0xDC00 <= low <= 0xDFFF :: !UnitEscapeFirst(rest, low)
    ensures Decode(PiecesText(ps) + (t + rest)).None?
  {
    hide Decode, Hex4, SpellsUnit, LowEscapeFirst, PiecesText;
    Hex4Exactly(t[2..6], u);
    if LowEscapeFirst(rest) {
      LowFirst(rest);
    }
    UnpairedIsRefused(ps, t[2..6], rest);
    assert [BACKSLASH, 'u'] + t[2..6] + rest == t + rest;
  }

  // ---- One letter ----

  lemma LetterDecodes(k: nat, rest: string)
    requires k < 8
    ensures Decode([BACKSLASH, LETTERS[k]] + rest) == Prefixed([CODES[k] as char], Decode(rest))
  {
    var t := [BACKSLASH, LETTERS[k]] + rest;
    assert t[2..] == rest;
  }

  // Any other letter makes the parser refuse the string.
  lemma OtherLettersAreRefused(c: char, rest: string)
    requires c != 'u' && c !in LETTERS
    ensures Decode([BACKSLASH, c] + rest).None?
  {
    assert forall k | 0 <= k < 8 :: LETTERS[k] in LETTERS;
    assert LETTERS[0] == QUOTE && LETTERS[1] == BACKSLASH && LETTERS[2] == '/' && LETTERS[3] == 'b';
    assert LETTERS[4] == 'f' && LETTERS[5] == 'n' && LETTERS[6] == 'r' && LETTERS[7] == 't';
  }

  // ---- Printing ----

  // What the printer writes for one character, whatever follows: its letter if it has one and
  // is not the slash, `\u00` and two lower-case digits for the other characters below 32,
  // itself otherwise.
  lemma LetterIsEscaped(k: nat, s: string)
    requires k < 8 && k != 2
    ensures EscapeText([CODES[k] as char] + s) == [BACKSLASH, LETTERS[k]] + EscapeText(s)
  {
    assert ([CODES[k] as char] + s)[1..] == s;
  }

  lemma ControlIsEscaped(c: char, s: string)
    requires c as int < 32 && c as int !in CODES
    ensures EscapeText([c] + s) == "\\u00" + [LOWER[c as int / 16], LOWER[c as int % 16]] + EscapeText(s)
  {
    assert ([c] + s)[1..] == s;
    assert CODES[3] == 8 && CODES[4] == 12 && CODES[5] == 10 && CODES[6] == 13 && CODES[7] == 9;
  }

  lemma OthersAreThemselves(c: char, s: string)
    requires c as int >= 32 && c as int != 0x22 && c as int != 0x5C
    ensures EscapeText([c] + s) == [c] + EscapeText(s)
  {
    assert ([c] + s)[1..] == s;
  }
}
