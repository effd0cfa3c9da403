/**
 Facts about byte positions that the string and number parsers use.
 */
module ParserStrings {
  import opened Utf
  import opened StringLiteral
  import opened Numbers

  lemma {:induction false} RunIs(t: string, i: nat, room: nat)
    requires i <= room && i <= |t| && (forall k | 0 <= k < i :: NumberChar(t[k]))
    requires i == room || i == |t| || !NumberChar(t[i])
    ensures NumberRun(t, room) == t[..i]
  {
    if i > 0 {
      RunIs(t[1..], i - 1, room - 1);
      assert t[..i] == [t[0]] + t[1..][..i - 1];
    }
  }

  lemma SubSlice(s: string, a: nat, b: nat, i: nat, j: nat)
    requires a + j <= b <= |s| && i <= j
    ensures s[a..b][i..j] == s[a + i..a + j]
  {
    var t := s[a..b];
    assert forall k | 0 <= k < |t| :: t[k] == s[a + k];
    assert |t[i..j]| == |s[a + i..a + j]|;
    assert forall k | 0 <= k < j - i :: t[i..j][k] == t[i + k];
    assert t[i..j] == s[a + i..a + j];
  }

  // One step of the first pass at position `e` of `s`.
  lemma CloseStep(s: string, e: nat)
    requires e < |s|
    ensures s[e] == QUOTE ==> CloseAt(s[e..]) == 0
    ensures s[e] != QUOTE && s[e] != BACKSLASH ==> CloseAt(s[e..]) == Shifted(CloseAt(s[e + 1..]), 1)
    ensures s[e] == BACKSLASH && e + 1 < |s| ==> CloseAt(s[e..]) == Shifted(CloseAt(s[e + 2..]), 2)
    ensures s[e] == BACKSLASH && e + 1 == |s| ==> CloseAt(s[e..]) == -1
  {
    assert s[e..][1..] == s[e + 1..];
    if e + 1 < |s| {
      assert s[e..][2..] == s[e + 2..];
    }
  }

  function Shifted(n: int, d: nat): int {
    if n < 0 then -1 else n + d
  }

  // The scan stops at the end of the buffer or on a quote.
  lemma ScanEnds(s: string, e: nat)
    requires e == |s| || (e < |s| && s[e] == QUOTE)
    ensures CloseAt(s[e..]) == if e < |s| then 0 else -1
    ensures Escapes(s[e..e]) == 0
  {
    assert e == |s| ==> s[e..] == "";
  }

  lemma EscapesStepAt(s: string, e: nat, close: nat)
    requires e < close <= |s|
    ensures s[e] != BACKSLASH ==> Escapes(s[e..close]) == Escapes(s[e + 1..close])
    ensures s[e] == BACKSLASH && e + 2 <= close ==> Escapes(s[e..close]) == 1 + Escapes(s[e + 2..close])
    ensures s[e] == BACKSLASH && e + 1 == close ==> Escapes(s[e..close]) == 1
  {
    var t := s[e..close];
    assert t[1..] == s[e + 1..close];
    if e + 2 <= close {
      assert t[2..] == s[e + 2..close];
    }
  }

  // ---- Second pass, one step at a time ----

  // What one turn of the decoding loop consumes and writes. A backslash alone takes the
  // closing quote with it.
  function DecodeUnit(t: string): (u: Unit)
    requires t != ""
    ensures u.Unit? ==> 1 <= u.consumed <= |t| + 1 && 1 <= |u.bytes|
  {
    if t[0] != BACKSLASH then Unit(1, [t[0]])
    else if |t| == 1 then Unit(2, [QUOTE])
    else if t[1] == 'u' then Utf16Literal(t)
    else
      var c := ShortEscape(t[1]);
      if c.None? then BadUnit else Unit(2, [c.value])
  }

  // What is left of the body at position `i`, which may be one past its end.
  function Left(s: string, i: nat, end: nat): string
    requires end <= |s|
  {
    if i <= end then s[i..end] else ""
  }

  // What is left of the size estimate.
  function Budget(s: string, i: nat, end: nat): int
    requires end <= |s|
  {
    end - i - Escapes(Left(s, i, end))
  }

  lemma DecodeTurn(s: string, i: nat, end: nat)
    requires i < end <= |s|
    ensures var t := s[i..end];
            var u := DecodeUnit(t);
            && (u.BadUnit? ==> Decode(t).None?)
            && (u.Unit? ==> Decode(t) == Prefixed(u.bytes, Decode(Left(s, i + u.consumed, end)))
                            && |u.bytes| + Budget(s, i + u.consumed, end) <= Budget(s, i, end))
  {
    var t := s[i..end];
    var u := DecodeUnit(t);
    assert [QUOTE] + "" == [QUOTE];
    if u.Unit? {
      if i + u.consumed <= end {
        SubSlice(s, i, end, u.consumed, end - i);
        assert t[u.consumed..] == t[u.consumed..end - i];
      }
      if t[0] == BACKSLASH && |t| >= 2 && t[1] == 'u' {
        UnitFits(t);
      }
    }
  }

  lemma DecodeStart(s: string, start: nat, end: nat)
    requires start <= end <= |s|
    ensures var body := s[start..end];
            && Decode(body) == Prefixed("", Decode(Left(s, start, end)))
            && Budget(s, start, end) == end - start - Escapes(body) >= 0
  {
    hide Decode, Escapes;
    var body := s[start..end];
    if Decode(body).Some? {
      assert "" + Decode(body).value == Decode(body).value;
    }
  }

  // One turn keeps the decoding equation and the size bound.
  lemma TurnFits(s: string, i: nat, end: nat, text: string, body: string)
    requires i < end <= |s| && Decode(body) == Prefixed(text, Decode(Left(s, i, end)))
    ensures var u := DecodeUnit(s[i..end]);
            && s[i..end] != "" && s[i..end][0] == s[i]
            && (u.BadUnit? ==> Decode(body).None?)
            && (u.Unit? ==> Decode(body) == Prefixed(text + u.bytes, Decode(Left(s, i + u.consumed, end)))
                            && |u.bytes| + Budget(s, i + u.consumed, end) <= Budget(s, i, end)
                            && i + u.consumed <= end + 1
                            && Budget(s, i + u.consumed, end) >= end - (i + u.consumed) - |Left(s, i + u.consumed, end)|
                            && |Left(s, i + u.consumed, end)|
                               == if i + u.consumed <= end then end - (i + u.consumed) else 0)
            && (s[i] != BACKSLASH ==> u == Unit(1, [s[i]]))
  {
    hide Decode;
    DecodeTurn(s, i, end);
    var u := DecodeUnit(s[i..end]);
    assert Left(s, i, end) == s[i..end];
    if u.Unit? {
      PrefixedTwice(text, u.bytes, Decode(Left(s, i + u.consumed, end)));
    }
  }

  lemma DecodeEnd(s: string, i: nat, end: nat, text: string)
    requires end <= i && end <= |s|
    ensures Prefixed(text, Decode(Left(s, i, end))) == Some(text)
    ensures Budget(s, i, end) == end - i
  {
    assert Left(s, i, end) == "" && text + "" == text;
  }

  lemma PrefixedTwice(a: string, b: string, o: Option<string>)
    ensures Prefixed(a, Prefixed(b, o)) == Prefixed(a + b, o)
  {
    if o.Some? {
      assert a + (b + o.value) == (a + b) + o.value;
    }
  }

  // ---- UTF-8 bytes, last one first ----

  function Shift6(p: nat, n: nat): nat {
    if n == 0 then p else Shift6(p, n - 1) / 64
  }

  lemma Utf8ByteAt(p: nat, q: nat)
    requires p <= 0x10FFFF && q < Utf8Length(p)
    ensures var n := Utf8Length(p);
            && (q > 0 ==> Utf8(p)[q] == Continuation(Shift6(p, n - 1 - q)))
            && (n > 1 ==>
                 LeadMark(n) + Shift6(p, n - 1) < 0x100 && Utf8(p)[0] == (LeadMark(n) + Shift6(p, n - 1)) as char)
            && (n == 1 ==> p < 0x80 && Utf8(p)[0] == (p % 0x80) as char)
  {
    assert Shift6(p, 1) == Shift6(p, 0) / 64;
    assert Shift6(p, 2) == Shift6(p, 1) / 64;
    assert Shift6(p, 3) == Shift6(p, 2) / 64;
  }
}
