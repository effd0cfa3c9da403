/**
 The parser as functions on the text still to be read, which always ends in NUL.
 Sound: what it consumes is the layout of an accepted concrete syntax tree within the
 nesting limit. Complete: every such layout is consumed, and nothing else.
 */
module ParserSpec {
  import opened CText
  import opened StringLiteral
  import opened Numbers
  import opened JsonValue
  import opened Grammar

  // ---- Whitespace ----

  // buffer_skip_whitespace: NUL counts as blank, but the final NUL is never passed.
  function SkipBlanks(t: string): (r: string)
    requires t != ""
    ensures r != "" && |r| <= |t|
    ensures !Blank(r[0]) || |r| == 1
    ensures Terminated(t) ==> Terminated(r)
  {
    if !Blank(t[0]) || |t| == 1 then t else SkipBlanks(t[1..])
  }

  // The blanks in front.
  function Skipped(t: string): (b: string)
    requires t != ""
  {
    if !Blank(t[0]) || |t| == 1 then "" else [t[0]] + Skipped(t[1..])
  }

  lemma {:induction false} SkippedAndRest(t: string)
    requires t != ""
    ensures Skipped(t) + SkipBlanks(t) == t
    ensures AllBlank(Skipped(t))
  {
    if Blank(t[0]) && |t| > 1 {
      var u := t[1..];
      SkippedAndRest(u);
      assert Skipped(t) + SkipBlanks(t) == [t[0]] + (Skipped(u) + SkipBlanks(u));
    }
  }

  lemma {:induction false} SkipsExactly(b: string, t: string)
    requires AllBlank(b) && t != "" && !Blank(t[0])
    ensures SkipBlanks(b + t) == t && Skipped(b + t) == b
  {
    if b == "" {
      assert b + t == t;
    } else {
      assert (b + t)[1..] == b[1..] + t;
      SkipsExactly(b[1..], t);
    }
  }

  // ---- Strings and numbers ----

  datatype StringParse = NoString | GotString(body: string, rest: string)

  function ParseQuoted(t: string): (r: StringParse)
    requires t != ""
    ensures r.GotString? ==> |r.rest| < |t| && (Terminated(t) ==> Terminated(r.rest))
  {
    if t[0] != QUOTE then NoString
    else
      var n := CloseAt(t[1..]);
      if n < 0 || Decode(t[1..n + 1]).None? then NoString
      else GotString(t[1..n + 1], t[n + 2..])
  }

  lemma ParsedIsQuoted(t: string)
    requires t != "" && ParseQuoted(t).GotString?
    ensures var r := ParseQuoted(t); GoodBody(r.body) && t == [QUOTE] + (r.body + [QUOTE] + r.rest)
  {
    var n := CloseAt(t[1..]);
    assert t[1..][..n] == t[1..n + 1];
    assert t[1..][n] == t[n + 1];
  }

  lemma QuotedIsParsed(body: string, rest: string)
    requires GoodBody(body)
    ensures ParseQuoted([QUOTE] + (body + [QUOTE] + rest)) == GotString(body, rest)
  {
    var u := body + [QUOTE] + rest;
    assert ([QUOTE] + u)[1..] == u;
    CloseAtFindsBody(body, rest);
    var t := [QUOTE] + u;
    assert t[1..|body| + 1] == body && t[|body| + 2..] == rest;
  }

  // The numeral parse_number reads: strtod on at most 63 copied characters.
  function ReadNumeral(t: string): Reading {
    Strtod(NumberRun(t, MAX_NUMERAL))
  }

  lemma NumeralIsRead(t: string)
    requires t != "" && (t[0] == '-' || Digit(t[0])) && ReadNumeral(t).Reading?
    ensures var n := ReadNumeral(t).numeral;
            && GoodNumeral(n) && NumeralText(n) != "" && NumeralText(n) <= t
            && NumeralText(n) + t[|NumeralText(n)|..] == t
  {
    var run := NumberRun(t, MAX_NUMERAL);
    StrtodIsPrefix(run);
    var n := Strtod(run).numeral;
    var text := NumeralText(n);
    PrefixOfPrefix(text, run, t);
    NumeralFirst(n);
    assert text[0] == t[0];
  }

  lemma PrefixOfPrefix(a: string, b: string, c: string)
    requires a <= b && |b| <= |c| && b == c[..|b|]
    ensures a <= c && a + c[|a|..] == c
  {
  }

  lemma NumeralFirst(n: Numeral)
    requires WellFormed(n)
    ensures NumeralText(n) != ""
    ensures n.sign == "" && n.whole == "" ==> NumeralText(n)[0] == '.'
    ensures n.sign == "" && n.whole != "" ==> NumeralText(n)[0] == n.whole[0]
    ensures n.sign != "" ==> NumeralText(n)[0] == n.sign[0]
  {
  }

  // The final NUL is never part of a numeral.
  lemma NumeralIsProper(t: string)
    requires Terminated(t) && (t[0] == '-' || Digit(t[0])) && ReadNumeral(t).Reading?
    ensures |NumeralText(ReadNumeral(t).numeral)| < |t|
  {
    hide NumeralText, ReadNumeral;
    NumeralIsRead(t);
    var n := ReadNumeral(t).numeral;
    NumeralIsNumberChars(n);
    var text := NumeralText(n);
    assert NumberChar(text[|text| - 1]) && text[|text| - 1] == t[|text| - 1];
  }

  lemma NumeralParses(n: Numeral, rest: string)
    requires GoodNumeral(n) && rest != "" && !NumberChar(rest[0])
    ensures ReadNumeral(NumeralText(n) + rest) == Reading(n)
  {
    NumeralIsNumberChars(n);
    NumberRunStops(NumeralText(n), rest);
    StrtodReadsNumeral(n);
  }

  // ---- Values ----

  datatype Parse = Fail | Ok(tree: Cst, rest: string)
  datatype ElementParse = NoElement | GotElement(element: Element, rest: string)
  datatype EntryParse = NoEntry | GotEntry(entry: Entry, rest: string)
  datatype ElementsParse = NoElements | Elements(elements: seq<Element>, rest: string)
  datatype EntriesParse = NoEntries | Entries(entries: seq<Entry>, rest: string)

  predicate ReadsNull(t: string) {
    |t| >= 4 && t[0] == 'n' && t[1] == 'u' && t[2] == 'l' && t[3] == 'l'
  }

  predicate ReadsFalse(t: string) {
    |t| >= 5 && t[0] == 'f' && t[1] == 'a' && t[2] == 'l' && t[3] == 's' && t[4] == 'e'
  }

  predicate ReadsTrue(t: string) {
    |t| >= 4 && t[0] == 't' && t[1] == 'r' && t[2] == 'u' && t[3] == 'e'
  }

  function ParseNumber(t: string): (r: Parse)
    requires Terminated(t) && (t[0] == '-' || Digit(t[0]))
    ensures r.Ok? ==> Terminated(r.rest) && |r.rest| < |t|
  {
    var q := ReadNumeral(t);
    if q.NoNumber? then Fail
    else
      NumeralIsRead(t);
      NumeralIsProper(t);
      Ok(Written(q.numeral), t[|NumeralText(q.numeral)|..])
  }

  function ParseString(t: string): (r: Parse)
    requires Terminated(t)
    ensures r.Ok? ==> Terminated(r.rest) && |r.rest| < |t|
  {
    var q := ParseQuoted(t);
    if q.NoString? then Fail else Ok(Quoted(q.body), q.rest)
  }

  function ParseValue(t: string, depth: nat): (r: Parse)
    requires Terminated(t) && depth <= NESTING_LIMIT
    ensures r.Ok? ==> Terminated(r.rest) && |r.rest| < |t|
    decreases |t|, 3
  {
    if ReadsNull(t) then Ok(LNull, t[4..])
    else if ReadsFalse(t) then Ok(LFalse, t[5..])
    else if ReadsTrue(t) then Ok(LTrue, t[4..])
    else if t[0] == QUOTE then ParseString(t)
    else if t[0] == '-' || Digit(t[0]) then ParseNumber(t)
    else if t[0] == '[' then ParseArray(t, depth)
    else if t[0] == '{' then ParseObject(t, depth)
    else Fail
  }

  function ParseArray(t: string, depth: nat): (r: Parse)
    requires Terminated(t) && t[0] == '[' && depth <= NESTING_LIMIT
    ensures r.Ok? ==> Terminated(r.rest) && |r.rest| < |t|
    decreases |t|, 2
  {
    if depth >= NESTING_LIMIT then Fail
    else
      var u := SkipBlanks(t[1..]);
      if u[0] == ']' then Ok(Bracketed(Skipped(t[1..]), []), u[1..])
      else
        var es := ParseElements(t[1..], depth + 1);
        if es.NoElements? then Fail else Ok(Bracketed("", es.elements), es.rest)
  }

  // blank value blank
  function ParseElement(t: string, depth: nat): (r: ElementParse)
    requires Terminated(t) && depth <= NESTING_LIMIT
    ensures r.GotElement? ==> Terminated(r.rest) && |r.rest| < |t|
    decreases |t|, 4
  {
    var v := ParseValue(SkipBlanks(t), depth);
    if v.Fail? then NoElement
    else GotElement(Element(Skipped(t), v.tree, Skipped(v.rest)), SkipBlanks(v.rest))
  }

  // Elements separated by commas and the closing bracket.
  function ParseElements(t: string, depth: nat): (r: ElementsParse)
    requires Terminated(t) && depth <= NESTING_LIMIT
    ensures r.Elements? ==> Terminated(r.rest) && |r.rest| < |t| && r.elements != []
    decreases |t|, 5
  {
    var e := ParseElement(t, depth);
    if e.NoElement? then NoElements
    else
      var w := e.rest;
      if w[0] == ',' then
        var es := ParseElements(w[1..], depth);
        if es.NoElements? then NoElements else Elements([e.element] + es.elements, es.rest)
      else if w[0] == ']' then Elements([e.element], w[1..])
      else NoElements
  }

  function ParseObject(t: string, depth: nat): (r: Parse)
    requires Terminated(t) && t[0] == '{' && depth <= NESTING_LIMIT
    ensures r.Ok? ==> Terminated(r.rest) && |r.rest| < |t|
    decreases |t|, 2
  {
    if depth >= NESTING_LIMIT then Fail
    else
      var u := SkipBlanks(t[1..]);
      if u[0] == '}' then Ok(Braced(Skipped(t[1..]), []), u[1..])
      else
        var es := ParseEntries(t[1..], depth + 1);
        if es.NoEntries? then Fail else Ok(Braced("", es.entries), es.rest)
  }

  // blank "key" blank : blank value blank
  function ParseEntry(t: string, depth: nat): (r: EntryParse)
    requires Terminated(t) && depth <= NESTING_LIMIT
    ensures r.GotEntry? ==> Terminated(r.rest) && |r.rest| < |t|
    decreases |t|, 4
  {
    var q := ParseQuoted(SkipBlanks(t));
    if q.NoString? then NoEntry
    else
      var c := SkipBlanks(q.rest);
      if c[0] != ':' then NoEntry
      else
        var v := ParseValue(SkipBlanks(c[1..]), depth);
        if v.Fail? then NoEntry
        else
          GotEntry(Entry(Skipped(t), q.body, Skipped(q.rest), Skipped(c[1..]), v.tree, Skipped(v.rest)),
                   SkipBlanks(v.rest))
  }

  function ParseEntries(t: string, depth: nat): (r: EntriesParse)
    requires Terminated(t) && depth <= NESTING_LIMIT
    ensures r.Entries? ==> Terminated(r.rest) && |r.rest| < |t| && r.entries != []
    decreases |t|, 5
  {
    var e := ParseEntry(t, depth);
    if e.NoEntry? then NoEntries
    else
      var w := e.rest;
      if w[0] == ',' then
        var es := ParseEntries(w[1..], depth);
        if es.NoEntries? then NoEntries else Entries([e.entry] + es.entries, es.rest)
      else if w[0] == '}' then Entries([e.entry], w[1..])
      else NoEntries
  }
}
