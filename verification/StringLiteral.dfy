/**
 String literals: what `parse_string` accepts between two quotes and what it makes of it,
 how `print_string_ptr` escapes a string, and RFC 8259 section 7 as a reference.
 */
module StringLiteral {
  import opened CText
  import opened Utf

  datatype Option<+T> = None | Some(value: T)

  const QUOTE: char := '\"'
  const BACKSLASH: char := '\\'
  const BACKSPACE: char := 8 as char
  const FORM_FEED: char := 12 as char

  // ---- First pass: find the closing quote ----

  // Index of the closing quote in `t`, the text after the opening one; -1 when it is missing.
  function CloseAt(t: string): (n: int)
    ensures -1 <= n < |t|
    ensures n >= 0 ==> t[n] == QUOTE && Closed(t[..n])
  {
    if t == "" then -1
    else if t[0] == QUOTE then 0
    else if t[0] == BACKSLASH then
      if |t| < 2 then -1
      else
        var n := CloseAt(t[2..]);
        if n < 0 then -1
        else assert t[..n + 2][2..] == t[2..][..n]; n + 2
    else
      var n := CloseAt(t[1..]);
      if n < 0 then -1
      else assert t[..n + 1][1..] == t[1..][..n]; n + 1
  }

  // No unescaped quote inside and no backslash left without its partner.
  predicate Closed(body: string) {
    body == "" ||
    (body[0] != QUOTE &&
     if body[0] == BACKSLASH then |body| >= 2 && Closed(body[2..]) else Closed(body[1..]))
  }

  lemma {:induction false} CloseAtFindsBody(body: string, rest: string)
    requires Closed(body)
    ensures CloseAt(body + [QUOTE] + rest) == |body|
  {
    var t := body + [QUOTE] + rest;
    if body == "" {
    } else if body[0] == BACKSLASH {
      assert t[2..] == body[2..] + [QUOTE] + rest;
      CloseAtFindsBody(body[2..], rest);
    } else {
      assert t[1..] == body[1..] + [QUOTE] + rest;
      CloseAtFindsBody(body[1..], rest);
    }
  }

  // The escapes the first pass counts: `skipped_bytes`.
  function Escapes(t: string): (n: nat)
    ensures n <= |t|
  {
    if t == "" then 0
    else if t[0] == BACKSLASH then 1 + (if |t| < 2 then 0 else Escapes(t[2..]))
    else Escapes(t[1..])
  }

  // Moving the start by one byte changes the count by 0 or 1.
  lemma {:induction false} EscapesStep(t: string)
    requires t != ""
    ensures Escapes(t[1..]) <= Escapes(t) <= Escapes(t[1..]) + 1
  {
    if t[0] == BACKSLASH && |t| >= 2 {
      EscapesStep(t[1..]);
      assert t[1..][1..] == t[2..];
    }
  }

  lemma {:induction false} EscapesJump(t: string, n: nat)
    requires n <= |t|
    ensures Escapes(t) <= Escapes(t[n..]) + n
  {
    if n > 0 {
      EscapesStep(t);
      EscapesJump(t[1..], n - 1);
      assert t[1..][n - 1..] == t[n..];
    }
  }

  // ---- Second pass: decode ----

  datatype Unit = BadUnit | Unit(consumed: nat, bytes: string)

  predicate SurrogatePairAt(t: string) {
    |t| >= 12 && t[6] == BACKSLASH && t[7] == 'u' && LowSurrogate(Hex4(t[8..12]))
  }

  // `utf16_literal_to_utf8` on the bytes from `\u` up to the closing quote.
  function Utf16Literal(t: string): (u: Unit)
    requires |t| >= 2
    ensures u.Unit? ==> (u.consumed == 6 || u.consumed == 12) && u.consumed <= |t| && 1 <= |u.bytes| <= 4
  {
    if |t| < 6 then BadUnit
    else
      var first := Hex4(t[2..6]);
      if LowSurrogate(first) then BadUnit
      else if HighSurrogate(first) then
        if SurrogatePairAt(t) then Unit(12, Utf8(Combine(first, Hex4(t[8..12])))) else BadUnit
      else Unit(6, Utf8(first))
  }

  // The byte a one-letter escape stands for.
  function ShortEscape(c: char): Option<char> {
    if c == 'b' then Some(BACKSPACE)
    else if c == 'f' then Some(FORM_FEED)
    else if c == 'n' then Some('\n')
    else if c == 'r' then Some('\r')
    else if c == 't' then Some('\t')
    else if c == QUOTE || c == BACKSLASH || c == '/' then Some(c)
    else None
  }

  function Prefixed(head: string, tail: Option<string>): Option<string> {
    if tail.None? then None else Some(head + tail.value)
  }

  // The decoded bytes of a body. A malformed `\u` escape can swallow half of the next
  // escape; a backslash that is then left alone pairs up with the closing quote.
  function Decode(body: string): Option<string> {
    if body == "" then Some("")
    else if body[0] != BACKSLASH then Prefixed([body[0]], Decode(body[1..]))
    else if |body| == 1 then Some([QUOTE])
    else if body[1] == 'u' then
      var u := Utf16Literal(body);
      if u.BadUnit? then None else Prefixed(u.bytes, Decode(body[u.consumed..]))
    else
      var c := ShortEscape(body[1]);
      if c.None? then None else Prefixed([c.value], Decode(body[2..]))
  }

  // One step of the second pass costs at least as much of the estimate as it writes.
  lemma UnitFits(t: string)
    requires |t| >= 2 && t[0] == BACKSLASH && t[1] == 'u' && Utf16Literal(t).Unit?
    ensures var u := Utf16Literal(t);
            |u.bytes| + (|t| - u.consumed) - Escapes(t[u.consumed..]) <= |t| - Escapes(t)
  {
    var u := Utf16Literal(t);
    if u.consumed == 12 {
      HexHasNoEscape(t[2..]);
      assert t[2..][4..] == t[6..];
      assert t[6..][2..] == t[8..];
      HexHasNoEscape(t[8..]);
      assert t[8..][4..] == t[12..];
      assert t[2..][..4] == t[2..6] && t[8..][..4] == t[8..12];
    } else if FourHex(t[2..6]) {
      assert t[2..][..4] == t[2..6];
      HexHasNoEscape(t[2..]);
      assert t[2..][4..] == t[6..];
    } else {
      EscapesJump(t[2..], 4);
      assert t[2..][4..] == t[6..];
    }
  }

  lemma HexHasNoEscape(t: string)
    requires |t| >= 4 && FourHex(t[..4])
    ensures Escapes(t) == Escapes(t[4..])
  {
    assert t[1..][1..] == t[2..] && t[2..][1..] == t[3..] && t[3..][1..] == t[4..];
    assert t[0] == t[..4][0] && t[1] == t[..4][1] && t[2] == t[..4][2] && t[3] == t[..4][3];
    assert Escapes(t) == Escapes(t[1..]);
    assert Escapes(t[1..]) == Escapes(t[2..]);
    assert Escapes(t[2..]) == Escapes(t[3..]);
  }

  // The size estimated by the first pass, terminator included, is enough for every
  // string the second pass produces.
  lemma {:induction false} DecodedFits(body: string)
    requires Decode(body).Some?
    ensures |Decode(body).value| + 1 <= |body| - Escapes(body) + 2
  {
    if body == "" {
    } else if body[0] != BACKSLASH {
      DecodedFits(body[1..]);
    } else if |body| == 1 {
    } else if body[1] == 'u' {
      UnitFits(body);
      DecodedFits(body[Utf16Literal(body).consumed..]);
    } else {
      DecodedFits(body[2..]);
    }
  }

  // ---- Escaping: print_string_ptr ----

  function HexDigitOf(h: nat): char
    requires h < 16
  {
    if h < 10 then (h + '0' as int) as char else (h - 10 + 'a' as int) as char
  }

  function EscapeChar(c: char): (s: string)
    ensures |s| == 1 || |s| == 2 || |s| == 6
  {
    if c > 31 as char && c != QUOTE && c != BACKSLASH then [c]
    else if c == BACKSLASH || c == QUOTE then [BACKSLASH, c]
    else if c == BACKSPACE then "\\b"
    else if c == FORM_FEED then "\\f"
    else if c == '\n' then "\\n"
    else if c == '\r' then "\\r"
    else if c == '\t' then "\\t"
    else ['\\', 'u', '0', '0', HexDigitOf(c as int / 16), HexDigitOf(c as int % 16)]
  }

  function EscapeText(s: string): string {
    if s == "" then "" else EscapeChar(s[0]) + EscapeText(s[1..])
  }

  function Quote(s: string): string {
    [QUOTE] + EscapeText(s) + [QUOTE]
  }

  lemma {:induction false} EscapeTextIsClosed(s: string)
    ensures Closed(EscapeText(s))
  {
    if s != "" {
      EscapeTextIsClosed(s[1..]);
      var e, t := EscapeChar(s[0]), EscapeText(s[1..]);
      if |e| == 1 {
        assert (e + t)[1..] == t;
      } else if |e| == 2 {
        assert (e + t)[2..] == t;
      } else {
        var w := e + t;
        assert w[2..][1..] == w[3..] && w[3..][1..] == w[4..] && w[4..][1..] == w[5..] && w[5..][1..] == w[6..];
        assert w[6..] == t;
        assert Closed(w[5..]) && Closed(w[4..]) && Closed(w[3..]) && Closed(w[2..]);
      }
    }
  }

  // The decoder undoes the escaping.
  lemma {:induction false} DecodeUndoesEscape(s: string)
    ensures Decode(EscapeText(s)) == Some(s)
  {
    if s != "" {
      DecodeUndoesEscape(s[1..]);
      var e, t := EscapeChar(s[0]), EscapeText(s[1..]);
      var w := e + t;
      if |e| == 1 {
        assert w[1..] == t;
      } else if |e| == 2 {
        assert w[2..] == t;
      } else {
        assert w[6..] == t;
        assert w[2..6] == e[2..6];
        assert Hex4(w[2..6]) == s[0] as int;
        assert Utf16Literal(w) == Unit(6, [s[0]]);
      }
      assert [s[0]] + s[1..] == s;
    }
  }

  lemma {:induction false} EscapeTextHasNoNul(s: string)
    ensures NUL !in EscapeText(s)
  {
    if s != "" {
      EscapeTextHasNoNul(s[1..]);
      assert NUL !in EscapeChar(s[0]);
    }
  }

  // ---- RFC 8259 section 7 ----

  // char = unescaped / escape ( short / "u" 4HEXDIG ), where a code unit that is half of
  // a surrogate pair occurs only together with the other half.
  datatype Piece =
    | Plain(c: char)
    | Short(letter: char)
    | Scalar(hex: string)
    | Pair(high: string, low: string)
  {
    predicate Legal() {
      match this
      case Plain(c) => c > 31 as char && c != QUOTE && c != BACKSLASH
      case Short(letter) => ShortEscape(letter).Some?
      case Scalar(hex) => FourHex(hex) && ScalarValue(Hex4(hex))
      case Pair(high, low) =>
        FourHex(high) && FourHex(low) && HighSurrogate(Hex4(high)) && LowSurrogate(Hex4(low))
    }

    function Text(): (t: string)
      ensures t != ""
    {
      match this
      case Plain(c) => [c]
      case Short(letter) => [BACKSLASH, letter]
      case Scalar(hex) => [BACKSLASH, 'u'] + hex
      case Pair(high, low) => [BACKSLASH, 'u'] + high + [BACKSLASH, 'u'] + low
    }

    function Bytes(): string
      requires Legal()
    {
      match this
      case Plain(c) => [c]
      case Short(letter) => [ShortEscape(letter).value]
      case Scalar(hex) => Utf8(Hex4(hex))
      case Pair(high, low) => Utf8(Combine(Hex4(high), Hex4(low)))
    }
  }

  function PiecesText(ps: seq<Piece>): string {
    if ps == [] then "" else ps[0].Text() + PiecesText(ps[1..])
  }

  predicate AllLegal(ps: seq<Piece>) {
    forall i | 0 <= i < |ps| :: ps[i].Legal()
  }

  function PiecesBytes(ps: seq<Piece>): string
    requires AllLegal(ps)
  {
    if ps == [] then "" else ps[0].Bytes() + PiecesBytes(ps[1..])
  }

  lemma PieceDecodes(p: Piece, t: string)
    requires p.Legal()
    ensures Closed(t) ==> Closed(p.Text() + t)
    ensures Decode(p.Text() + t) == Prefixed(p.Bytes(), Decode(t))
  {
    var w := p.Text() + t;
    match p
    case Plain(c) =>
      assert w[1..] == t;
    case Short(letter) =>
      assert w[2..] == t;
    case Scalar(hex) =>
      ScalarDecodes(hex, t);
    case Pair(high, low) =>
      PairDecodes(high, low, t);
  }

  lemma ScalarDecodes(hex: string, t: string)
    requires FourHex(hex) && ScalarValue(Hex4(hex))
    ensures var w := [BACKSLASH, 'u'] + hex + t;
            (Closed(t) ==> Closed(w)) && Decode(w) == Prefixed(Utf8(Hex4(hex)), Decode(t))
  {
    var w := [BACKSLASH, 'u'] + hex + t;
    assert w[2..6] == hex && w[6..] == t;
    HexIsClosed(hex, t);
    assert w[2..] == hex + t;
    hide Closed, Utf8, Hex4;
    assert Utf16Literal(w) == Unit(6, Utf8(Hex4(hex)));
  }

  lemma PairDecodes(high: string, low: string, t: string)
    requires FourHex(high) && FourHex(low) && HighSurrogate(Hex4(high)) && LowSurrogate(Hex4(low))
    ensures var w := [BACKSLASH, 'u'] + high + [BACKSLASH, 'u'] + low + t;
            (Closed(t) ==> Closed(w)) && Decode(w) == Prefixed(Utf8(Combine(Hex4(high), Hex4(low))), Decode(t))
  {
    var w := [BACKSLASH, 'u'] + high + [BACKSLASH, 'u'] + low + t;
    PairIsClosed(high, low, t);
    hide Closed, Utf8, Hex4;
    assert w[2..6] == high && w[8..12] == low && w[12..] == t;
    assert Utf16Literal(w) == Unit(12, Utf8(Combine(Hex4(high), Hex4(low))));
  }

  lemma PairIsClosed(high: string, low: string, t: string)
    requires FourHex(high) && FourHex(low)
    ensures Closed(t) ==> Closed([BACKSLASH, 'u'] + high + [BACKSLASH, 'u'] + low + t)
  {
    HexIsClosed(low, t);
    var v := [BACKSLASH, 'u'] + (low + t);
    assert v[2..] == low + t;
    HexIsClosed(high, v);
    var w := [BACKSLASH, 'u'] + high + [BACKSLASH, 'u'] + low + t;
    assert w[2..] == high + v;
  }

  lemma HexIsClosed(hex: string, t: string)
    requires FourHex(hex)
    ensures Closed(t) ==> Closed(hex + t)
  {
    var w := hex + t;
    assert w[1..][1..] == w[2..] && w[2..][1..] == w[3..] && w[3..][1..] == w[4..] && w[4..] == t;
    assert w[1..] != "" && w[2..] != "" && w[3..] != "";
    if Closed(t) {
      assert Closed(w[3..]);
      assert Closed(w[2..]);
      assert Closed(w[1..]);
    }
  }

  // Every legal JSON string is accepted and decodes to the bytes RFC 8259 gives it.
  lemma {:induction false} LegalStringsDecode(ps: seq<Piece>)
    requires AllLegal(ps)
    ensures Closed(PiecesText(ps)) && Decode(PiecesText(ps)) == Some(PiecesBytes(ps))
  {
    if ps != [] {
      LegalStringsDecode(ps[1..]);
      PieceDecodes(ps[0], PiecesText(ps[1..]));
    }
  }

  // The escape of the second half of a surrogate pair comes first.
  predicate LowEscapeFirst(t: string) {
    |t| >= 6 && t[0] == BACKSLASH && t[1] == 'u' && LowSurrogate(Hex4(t[2..6]))
  }

  // Half a surrogate pair, anywhere in a string, makes the parser refuse it.
  lemma {:induction false} UnpairedIsRefused(ps: seq<Piece>, hex: string, t: string)
    requires AllLegal(ps) && FourHex(hex)
    requires LowSurrogate(Hex4(hex)) || (HighSurrogate(Hex4(hex)) && !LowEscapeFirst(t))
    ensures Decode(PiecesText(ps) + ([BACKSLASH, 'u'] + hex + t)).None?
  {
    hide Decode, Hex4;
    var w := [BACKSLASH, 'u'] + hex + t;
    if ps == [] {
      assert "" + w == w;
      HalfIsRefused(hex, t);
    } else {
      var tail := PiecesText(ps[1..]) + w;
      UnpairedIsRefused(ps[1..], hex, t);
      PieceDecodes(ps[0], tail);
      assert PiecesText(ps) + w == ps[0].Text() + tail;
    }
  }

  lemma HalfIsRefused(hex: string, t: string)
    requires FourHex(hex)
    requires LowSurrogate(Hex4(hex)) || (HighSurrogate(Hex4(hex)) && !LowEscapeFirst(t))
    ensures Decode([BACKSLASH, 'u'] + hex + t).None?
  {
    hide Hex4;
    var w := [BACKSLASH, 'u'] + hex + t;
    assert w[2..6] == hex && w[6..] == t;
    assert |w| >= 12 ==> w[8..12] == t[2..6];
  }

  // A piece stands for the NUL character exactly when it is the escape `\u0000`.
  lemma PieceNul(p: Piece)
    requires p.Legal()
    ensures NUL in p.Bytes() <==> p == Scalar("0000")
  {
    match p
    case Scalar(hex) =>
      ZeroHex(hex);
      Utf8Nul(Hex4(hex));
    case Pair(high, low) =>
      Utf8Nul(Combine(Hex4(high), Hex4(low)));
    case _ =>
  }

  lemma ZeroHex(hex: string)
    requires FourHex(hex)
    ensures Hex4(hex) == 0 <==> hex == "0000"
  {
    assert Hex4("0000") == 0;
    assert hex == [hex[0], hex[1], hex[2], hex[3]];
  }

  lemma Utf8Nul(p: nat)
    requires p <= 0x10FFFF
    ensures NUL in Utf8(p) <==> p == 0
  {
  }

  lemma {:induction false} NulIsEscaped(ps: seq<Piece>)
    requires AllLegal(ps)
    ensures NUL in PiecesBytes(ps) <==> Scalar("0000") in ps
  {
    hide Utf8, Hex4;
    if ps != [] {
      PieceNul(ps[0]);
      NulIsEscaped(ps[1..]);
      assert ps == [ps[0]] + ps[1..];
    }
  }

  // ---- Which decodable strings are legal ----

  // Every byte outside an escape is above 31, and every `\u` has its four hex digits.
  predicate Strict(body: string) {
    if body == "" then true
    else if body[0] != BACKSLASH then body[0] > 31 as char && Strict(body[1..])
    else if |body| == 1 then false
    else if body[1] == 'u' then |body| >= 6 && FourHex(body[2..6]) && Strict(body[6..])
    else Strict(body[2..])
  }

  lemma PieceIsStrict(p: Piece, t: string)
    requires p.Legal()
    ensures Strict(p.Text() + t) <==> Strict(t)
  {
    var w := p.Text() + t;
    match p
    case Plain(c) =>
      assert w[1..] == t;
    case Short(letter) =>
      assert w[2..] == t;
    case Scalar(hex) =>
      assert w[2..6] == hex && w[6..] == t;
    case Pair(high, low) =>
      var v := [BACKSLASH, 'u'] + low + t;
      assert w[2..6] == high && w[6..] == v && v[2..6] == low && v[6..] == t;
  }

  lemma {:induction false} PiecesAreStrict(ps: seq<Piece>)
    requires AllLegal(ps)
    ensures Strict(PiecesText(ps))
  {
    hide Strict;
    if ps == [] {
      NothingIsStrict();
    } else {
      PiecesAreStrict(ps[1..]);
      PieceIsStrict(ps[0], PiecesText(ps[1..]));
    }
  }

  lemma NothingIsStrict()
    ensures Strict("")
  {
  }

  // The first piece of a strict body the parser accepts.
  lemma FirstPiece(body: string) returns (p: Piece)
    requires body != "" && Closed(body) && Decode(body).Some? && Strict(body)
    ensures p.Legal() && p.Text() <= body
  {
    hide Hex4, Utf8;
    if body[0] != BACKSLASH {
      p := Piece.Plain(body[0]);
    } else if body[1] != 'u' {
      p := Short(body[1]);
    } else {
      p := FirstUnit(body);
    }
  }

  lemma FirstUnit(body: string) returns (p: Piece)
    requires |body| >= 6 && body[0] == BACKSLASH && body[1] == 'u' && FourHex(body[2..6])
    requires Utf16Literal(body).Unit? && Strict(body[6..])
    ensures p.Legal() && p.Text() <= body
  {
    hide Utf8;
    var first := Hex4(body[2..6]);
    if HighSurrogate(first) {
      p := Pair(body[2..6], body[8..12]);
      assert body[6..][2..6] == body[8..12];
      assert body[..12] == [BACKSLASH, 'u'] + body[2..6] + [BACKSLASH, 'u'] + body[8..12];
    } else {
      p := Scalar(body[2..6]);
      assert body[..6] == [BACKSLASH, 'u'] + body[2..6];
    }
  }

  lemma UnitOpens(hex: string, t: string)
    requires FourHex(hex) && Closed([BACKSLASH, 'u'] + hex + t)
    ensures Closed(t)
  {
    var w := [BACKSLASH, 'u'] + hex + t;
    assert w[2..] == hex + t;
    HexOpens(hex, t);
  }

  lemma ClosedBehind(p: Piece, t: string)
    requires p.Legal() && Closed(p.Text() + t)
    ensures Closed(t)
  {
    var w := p.Text() + t;
    match p
    case Plain(c) =>
      assert w[1..] == t;
    case Short(letter) =>
      assert w[2..] == t;
    case Scalar(hex) =>
      UnitOpens(hex, t);
    case Pair(high, low) =>
      var v := [BACKSLASH, 'u'] + low + t;
      assert w == [BACKSLASH, 'u'] + high + v;
      UnitOpens(high, v);
      UnitOpens(low, t);
  }

  lemma HexOpens(hex: string, t: string)
    requires FourHex(hex) && Closed(hex + t)
    ensures Closed(t)
  {
    var w := hex + t;
    assert w[1..][1..] == w[2..] && w[2..][1..] == w[3..] && w[3..][1..] == w[4..] && w[4..] == t;
    assert Closed(w[1..]);
    assert Closed(w[2..]);
    assert Closed(w[3..]);
  }

  // A strict body the parser accepts is made of legal pieces.
  lemma {:induction false} StrictIsLegal(body: string) returns (ps: seq<Piece>)
    requires Closed(body) && Decode(body).Some? && Strict(body)
    ensures AllLegal(ps) && PiecesText(ps) == body
    decreases |body|
  {
    hide Closed, Decode, Strict;
    if body == "" {
      ps := [];
    } else {
      var p := FirstPiece(body);
      var t := body[|p.Text()|..];
      assert p.Text() + t == body;
      ClosedBehind(p, t);
      PieceDecodes(p, t);
      PieceIsStrict(p, t);
      var tail := StrictIsLegal(t);
      ps := [p] + tail;
      assert ps[1..] == tail;
    }
  }
}
