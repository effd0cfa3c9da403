/**
 Whole texts: `cJSON_ParseWithOpts` on a C string, and exactly what it accepts.
 */
module Document {
  import opened CText
  import opened StringLiteral
  import opened Utf
  import opened Numbers
  import opened JsonValue
  import opened Grammar
  import opened ParserSpec
  import opened ParserTheorems

  // The UTF-8 byte order mark.
  const BOM: string := [0xEF as char, 0xBB as char, 0xBF as char]

  // skip_utf8_bom at the start of the buffer, which includes the final NUL.
  function SkipBom(t: string): (r: string)
    ensures |t| > 0 && Terminated(t) ==> Terminated(r)
  {
    if |t| > 4 && t[0] == BOM[0] && t[1] == BOM[1] && t[2] == BOM[2] then t[3..] else t
  }

  function ParseDocument(t: string, requireNul: bool): (r: Parse)
    requires Terminated(t)
    ensures r.Ok? ==> Terminated(r.rest)
  {
    var v := ParseValue(SkipBlanks(SkipBom(t)), 0);
    if v.Fail? || !requireNul then v
    else
      var w := SkipBlanks(v.rest);
      if w[0] == NUL then Ok(v.tree, w) else Fail
  }

  lemma {:induction false} LayoutAppend(c: Cst, a: string, b: string)
    ensures Layout(c, a + b) == Layout(c, a) + b
    decreases c, 1
  {
    hide LayoutElements, LayoutEntries, NumeralText;
    match c
    case Quoted(body) =>
      assert body + [QUOTE] + (a + b) == (body + [QUOTE] + a) + b;
    case Bracketed(blank, es) =>
      assert "]" + (a + b) == ("]" + a) + b;
      if es == [] {
        assert blank + (("]" + a) + b) == (blank + ("]" + a)) + b;
      } else {
        ElementsAppend(es, "]" + a, b);
      }
    case Braced(blank, es) =>
      assert "}" + (a + b) == ("}" + a) + b;
      if es == [] {
        assert blank + (("}" + a) + b) == (blank + ("}" + a)) + b;
      } else {
        EntriesAppend(es, "}" + a, b);
      }
    case _ =>
  }

  lemma {:induction false} ElementsAppend(es: seq<Element>, a: string, b: string)
    requires es != []
    ensures LayoutElements(es, a + b) == LayoutElements(es, a) + b
    decreases es, 0
  {
    hide Layout;
    var e := es[0];
    var tail := if |es| == 1 then a else "," + LayoutElements(es[1..], a);
    if |es| > 1 {
      ElementsAppend(es[1..], a, b);
    }
    assert (if |es| == 1 then a + b else "," + LayoutElements(es[1..], a + b)) == tail + b;
    assert e.after + (tail + b) == (e.after + tail) + b;
    LayoutAppend(e.value, e.after + tail, b);
  }

  lemma {:induction false} EntriesAppend(es: seq<Entry>, a: string, b: string)
    requires es != []
    ensures LayoutEntries(es, a + b) == LayoutEntries(es, a) + b
    decreases es, 0
  {
    hide Layout;
    var e := es[0];
    var tail := if |es| == 1 then a else "," + LayoutEntries(es[1..], a);
    if |es| > 1 {
      EntriesAppend(es[1..], a, b);
    }
    assert (if |es| == 1 then a + b else "," + LayoutEntries(es[1..], a + b)) == tail + b;
    assert e.after + (tail + b) == (e.after + tail) + b;
    LayoutAppend(e.value, e.after + tail, b);
    KeyAppend(e, Layout(e.value, e.after + tail), b);
  }

  lemma KeyAppend(e: Entry, v: string, b: string)
    ensures e.before + ([QUOTE] + (e.key + [QUOTE] + (e.gap + (":" + (e.lead + (v + b))))))
            == e.before + ([QUOTE] + (e.key + [QUOTE] + (e.gap + (":" + (e.lead + v))))) + b
  {
    assert e.lead + (v + b) == (e.lead + v) + b;
    assert ":" + ((e.lead + v) + b) == (":" + (e.lead + v)) + b;
    var c := ":" + (e.lead + v);
    assert e.gap + (c + b) == (e.gap + c) + b;
    assert e.key + [QUOTE] + ((e.gap + c) + b) == (e.key + [QUOTE] + (e.gap + c)) + b;
  }

  // A value is parsed to its own syntax tree exactly when that tree is accepted and fits.
  lemma ParsedExactly(c: Cst, rest: string, depth: nat)
    requires Terminated(rest) && Delimited(c, rest) && depth <= NESTING_LIMIT
    ensures Terminated(Layout(c, rest))
    ensures ParseValue(Layout(c, rest), depth) == Ok(c, rest) <==> Accepted(c) && depth + Depth(c) <= NESTING_LIMIT
  {
    LayoutTerminated(c, rest);
    if ParseValue(Layout(c, rest), depth) == Ok(c, rest) {
      ValueSound(Layout(c, rest), depth);
    }
    if Accepted(c) {
      ValueComplete(c, rest, depth);
    }
  }

  // RFC 8259 completeness: the text is parsed to itself exactly within the nesting limit and
  // with numerals of at most 63 bytes, and then yields the value meant exactly when no string
  // and no key escapes a NUL.
  lemma RfcParsedExactly(c: Cst, rest: string, depth: nat)
    requires Rfc(c) && Terminated(rest) && Delimited(c, rest) && depth <= NESTING_LIMIT
    ensures Terminated(Layout(c, rest))
    ensures ParseValue(Layout(c, rest), depth) == Ok(c, rest) <==> ShortNumerals(c) && depth + Depth(c) <= NESTING_LIMIT
    ensures ShortNumerals(c) ==> Accepted(c) && (Meaning(c) == RfcValue(c) <==> NoNulEscape(c))
  {
    hide Layout, ParseValue, Accepted, Rfc, Meaning, RfcValue, NoNulEscape, ShortNumerals;
    RfcIsAccepted(c);
    ParsedExactly(c, rest, depth);
    if ShortNumerals(c) {
      MeaningIsRfcValue(c);
    }
  }

  // The legal text "a\u0000b" is stored as "a".
  lemma NulEscapeCutsString()
    ensures var c := Quoted("a\\u0000b");
            && Rfc(c) && Accepted(c) && Terminated(Layout(c, [NUL])) && ParseValue(Layout(c, [NUL]), 0) == Ok(c, [NUL])
            && Meaning(c) == String("a") && RfcValue(c) == String(['a', NUL, 'b'])
  {
    hide Decode, PiecesText, PiecesBytes, Layout, ParseValue, Closed;
    var body := "a\\u0000b";
    var ps := [Piece.Plain('a'), Scalar("0000"), Piece.Plain('b')];
    NulEscapeIs(body, ps);
    assert RfcBody(body);
    var c := Quoted(body);
    LegalStringsDecode(PiecesOfBody(body));
    RfcParsedExactly(c, [NUL], 0);
    CStringOfTerminated("a", "b");
    assert "a" + [NUL] + "b" == ['a', NUL, 'b'];
    assert BodyMeaning(body) == "a";
  }

  lemma NulEscapeIs(body: string, ps: seq<Piece>)
    requires body == "a\\u0000b" && ps == [Piece.Plain('a'), Scalar("0000"), Piece.Plain('b')]
    ensures AllLegal(ps) && PiecesText(ps) == body && Decode(body) == Some(['a', NUL, 'b'])
  {
    assert Hex4("0000") == 0 && FourHex("0000");
    assert ps[1..] == [Scalar("0000"), Piece.Plain('b')] && ps[1..][1..] == [Piece.Plain('b')];
    assert PiecesText([]) == "" && PiecesText(ps[1..][1..]) == "b" + PiecesText([]) == "b";
    assert ps[1].Text() == "\\u" + "0000" == "\\u0000";
    assert PiecesText(ps[1..]) == "\\u0000" + "b" == "\\u0000b";
    LegalStringsDecode(ps);
    assert Utf8(0) == [NUL] && Scalar("0000").Bytes() == [NUL];
    assert PiecesBytes(ps[1..][1..]) == "b" && PiecesBytes(ps[1..]) == [NUL] + "b";
    assert PiecesBytes(ps) == "a" + ([NUL] + "b") == ['a', NUL, 'b'];
  }

  // 64 digits are legal JSON but not read as one number.
  lemma OverlongNumeralIsCut()
    ensures var c := Written(Numeral("", seq(64, _ => '1'), false, "", NoExponent));
            Rfc(c) && Terminated(Layout(c, [NUL])) && ParseValue(Layout(c, [NUL]), 0) != Ok(c, [NUL])
  {
    var c := Written(Numeral("", seq(64, _ => '1'), false, "", NoExponent));
    assert NumeralText(c.numeral) == c.numeral.whole;
    RfcParsedExactly(c, [NUL], 0);
  }

  // A string of digits is read as one number exactly up to 63 of them.
  lemma DigitsReadExactly(digits: string)
    requires AllDigits(digits) && digits != ""
    ensures var c := Written(Numeral("", digits, false, "", NoExponent));
            && Terminated(Layout(c, [NUL])) && Layout(c, [NUL]) == digits + [NUL]
            && (ParseValue(Layout(c, [NUL]), 0) == Ok(c, [NUL]) <==> |digits| <= 63)
  {
    hide ParseValue;
    var c := Written(Numeral("", digits, false, "", NoExponent));
    assert NumeralText(c.numeral) == digits;
    ParsedExactly(c, [NUL], 0);
  }

  // The keywords and what they mean.
  lemma KeywordsMean()
    ensures Terminated("true" + [NUL]) && Terminated("false" + [NUL]) && Terminated("null" + [NUL])
    ensures ParseValue("true" + [NUL], 0) == Ok(LTrue, [NUL]) && Meaning(LTrue) == True
    ensures ParseValue("false" + [NUL], 0) == Ok(LFalse, [NUL]) && Meaning(LFalse) == False
    ensures ParseValue("null" + [NUL], 0) == Ok(LNull, [NUL]) && Meaning(LNull) == Null
  {
    hide ParseValue;
    ParsedExactly(LTrue, [NUL], 0);
    ParsedExactly(LFalse, [NUL], 0);
    ParsedExactly(LNull, [NUL], 0);
  }

  // The byte order mark is the UTF-8 form of U+FEFF.
  lemma BomIsUtf8()
    ensures Utf8(0xFEFF) == BOM && Decode8(BOM) == 0xFEFF
  {
    Utf8Decodes(0xFEFF);
  }

  // What may follow a value: exactly the characters up to the space.
  lemma BlanksExactly(c: char)
    requires c != NUL
    ensures ParseDocument("null" + [c] + [NUL], true).Ok? <==> c as int <= 32
  {
    hide ParseValue;
    var rest := [c, NUL];
    var t := "null" + [c] + [NUL];
    assert t == Layout(LNull, rest) && SkipBom(t) == t && SkipBlanks(t) == t;
    ParsedExactly(LNull, rest, 0);
    assert rest[1..] == [NUL];
    assert SkipBlanks(rest) == if c as int <= 32 then [NUL] else rest;
  }

  // `text` writes `c`: an optional byte order mark, blanks, the value, blanks.
  ghost predicate Writes(text: string, c: Cst) {
    exists bom: string, before: string, after: string ::
      (bom == "" || bom == BOM) && AllBlank(before) && AllBlank(after) && WrittenAs(text, bom, before, c, after)
  }

  predicate WrittenAs(text: string, bom: string, before: string, c: Cst, after: string) {
    text == bom + (before + Layout(c, after))
  }

  // The whole-text mode accepts exactly the texts that write an accepted tree within the
  // nesting limit, and yields that tree.
  lemma AcceptsExactly(text: string, c: Cst)
    requires NUL !in text
    ensures ParseDocument(text + [NUL], true).Ok? && ParseDocument(text + [NUL], true).tree == c
            <==> Accepted(c) && Depth(c) <= NESTING_LIMIT && Writes(text, c)
  {
    var r := ParseDocument(text + [NUL], true);
    if r.Ok? && r.tree == c {
      AcceptedIsWritten(text);
    }
    if Accepted(c) && Depth(c) <= NESTING_LIMIT && Writes(text, c) {
      var bom: string, before: string, after: string :|
        (bom == "" || bom == BOM) && AllBlank(before) && AllBlank(after) && WrittenAs(text, bom, before, c, after);
      WrittenIsAccepted(text, bom, before, c, after, true);
    }
  }

  // A text is accepted with a strict tree exactly when it writes RFC 8259 within the limits.
  lemma AcceptsRfcExactly(text: string, c: Cst)
    requires NUL !in text
    ensures ParseDocument(text + [NUL], true).Ok? && ParseDocument(text + [NUL], true).tree == c && StrictTree(c)
            <==> Rfc(c) && ShortNumerals(c) && Depth(c) <= NESTING_LIMIT && Writes(text, c)
  {
    hide ParseDocument, Writes, Accepted, Rfc, StrictTree, ShortNumerals;
    AcceptsExactly(text, c);
    if Accepted(c) {
      AcceptedIsRfcExactly(c);
    }
    if Rfc(c) {
      RfcIsAccepted(c);
    }
  }

  // No RFC 8259 strings, yet accepted: "\uZZZZ", stored as the empty string, and a raw tab.
  lemma LaxStrings()
    ensures var c := Quoted("\\uZZZZ");
            Accepted(c) && !Rfc(c) && Meaning(c) == String("") && ParseValue(Layout(c, [NUL]), 0) == Ok(c, [NUL])
    ensures var c := Quoted("\t");
            Accepted(c) && !Rfc(c) && Meaning(c) == String("\t") && ParseValue(Layout(c, [NUL]), 0) == Ok(c, [NUL])
  {
    BadHexIsNul();
    var bad, tab := "\\uZZZZ", "\t";
    assert tab[1..] == "" && [tab[0]] + "" == tab;
    assert Closed(tab) && Decode("") == Some("") && Decode(tab) == Some(tab);
    assert bad[2..6] == "ZZZZ" && !Strict(bad) && !Strict(tab);
    CStringOfTerminated("", "");
    assert "" + [NUL] + "" == [NUL];
    CStringWhole(tab);
    AcceptedIsRfcExactly(Quoted(bad));
    AcceptedIsRfcExactly(Quoted(tab));
    ParsedExactly(Quoted(bad), [NUL], 0);
    ParsedExactly(Quoted(tab), [NUL], 0);
  }

  lemma BadHexIsNul()
    ensures Closed("\\uZZZZ") && Decode("\\uZZZZ") == Some([NUL])
  {
    var w := "\\uZZZZ";
    assert w[2..] == "ZZZZ" && w[2..][1..] == "ZZZ" && w[2..][1..][1..] == "ZZ" && w[2..][1..][1..][1..] == "Z";
    assert w[2..][1..][1..][1..][1..] == "";
    assert Closed("ZZ") && Closed("ZZZ") && Closed("ZZZZ");
    assert w[2..6] == "ZZZZ" && !FourHex("ZZZZ") && Hex4("ZZZZ") == 0;
    assert Utf8(0) == [NUL] && Utf16Literal(w) == Unit(6, [NUL]);
    assert w[6..] == "" && Decode("") == Some("") && [NUL] + "" == [NUL];
  }

  // No RFC 8259 numerals, yet accepted: 007, 1. and -.5
  lemma LaxNumerals(n: Numeral)
    requires || n == Numeral("", "007", false, "", NoExponent)
             || n == Numeral("", "1", true, "", NoExponent)
             || n == Numeral("-", "", true, "5", NoExponent)
    ensures var c := Written(n);
            Accepted(c) && !Rfc(c) && Terminated(Layout(c, [NUL])) && ParseValue(Layout(c, [NUL]), 0) == Ok(c, [NUL])
  {
    hide ParseValue, Layout;
    assert |NumeralText(n)| <= 3;
    ParsedExactly(Written(n), [NUL], 0);
  }

  // The mode of cJSON_Parse reads a prefix: whatever it accepts was written at the start.
  lemma PrefixIsWritten(text: string)
    requires ParseDocument(text + [NUL], false).Ok?
    ensures var r := ParseDocument(text + [NUL], false);
            && Accepted(r.tree) && Depth(r.tree) <= NESTING_LIMIT
            && exists bom: string, before: string ::
                 (bom == "" || bom == BOM) && AllBlank(before) && WrittenAs(text + [NUL], bom, before, r.tree, r.rest)
  {
    hide ParseValue, SkipBlanks, Skipped, Layout;
    var t := text + [NUL];
    var u := SkipBom(t);
    var bom := if u == t then "" else BOM;
    assert t == bom + u;
    var before := Skipped(u);
    SkippedAndRest(u);
    ValueSound(SkipBlanks(u), 0);
    var r := ParseDocument(t, false);
    assert WrittenAs(t, bom, before, r.tree, r.rest);
  }

  // A numeral in front of `rest` begins the first 63 number bytes there, and no longer
  // well-formed numeral does.
  ghost predicate ReadsThere(c: Cst, rest: string) {
    c.Written? ==> Longest(c.numeral, NumberRun(Layout(c, rest), MAX_NUMERAL))
  }

  // And it accepts every accepted tree that fits, whatever follows.
  lemma PrefixIsAccepted(bom: string, before: string, c: Cst, rest: string)
    requires (bom == "" || bom == BOM) && AllBlank(before) && Accepted(c) && Terminated(rest) && ReadsThere(c, rest)
    ensures var t := bom + (before + Layout(c, rest));
            Terminated(t) && ParseDocument(t, false) == if Depth(c) <= NESTING_LIMIT then Ok(c, rest) else Fail
  {
    hide ParseValue, Skipped, Layout, SkipBom, SkipBlanks, ReadsThere;
    var l := Layout(c, rest);
    LayoutTerminated(c, rest);
    LayoutStartsVisibly(c, rest);
    var u := before + l;
    var t := bom + u;
    assert u[|u| - 1] == l[|l| - 1] && t[|t| - 1] == u[|u| - 1];
    BomIsSkipped(bom, before, c, rest, t);
    SkipsExactly(before, l);
    ReadThere(c, rest);
  }

  lemma ReadThere(c: Cst, rest: string)
    requires Accepted(c) && Terminated(rest) && ReadsThere(c, rest)
    ensures Terminated(Layout(c, rest))
    ensures ParseValue(Layout(c, rest), 0) == if Depth(c) <= NESTING_LIMIT then Ok(c, rest) else Fail
  {
    hide ParseValue, ReadNumeral, NumeralText, Longest, NumberRun;
    LayoutTerminated(c, rest);
    if c.Written? {
      NumeralFirst(c.numeral);
      ReadsLongest(Layout(c, rest), c.numeral);
      PrefixedByNumeral(NumeralText(c.numeral), rest, c.numeral, 0);
    } else {
      ValueComplete(c, rest, 0);
    }
  }

  lemma ReadsLongest(t: string, n: Numeral)
    ensures ReadNumeral(t) == Reading(n) <==> Longest(n, NumberRun(t, MAX_NUMERAL))
  {
    StrtodExactly(NumberRun(t, MAX_NUMERAL), n);
  }

  lemma ParsedReadsThere(t: string, depth: nat)
    requires Terminated(t) && depth <= NESTING_LIMIT && ParseValue(t, depth).Ok?
    ensures ReadsThere(ParseValue(t, depth).tree, ParseValue(t, depth).rest)
  {
    hide Layout, ReadNumeral, ParseArray, ParseObject, NumeralText, Longest, NumberRun;
    ValueSound(t, depth);
    if ParseValue(t, depth).tree.Written? {
      WrittenIsNumber(t, depth);
      ReadsLongest(t, ParseValue(t, depth).tree.numeral);
    }
  }

  lemma WrittenIsNumber(t: string, depth: nat)
    requires Terminated(t) && depth <= NESTING_LIMIT && ParseValue(t, depth).Ok? && ParseValue(t, depth).tree.Written?
    ensures ReadNumeral(t) == Reading(ParseValue(t, depth).tree.numeral)
  {
    hide ReadNumeral, NumeralText, SkipBlanks, ParseElements, ParseEntries;
  }

  // Prefix mode exactly: the result is `c` with `rest` left over if and only if the text
  // writes an accepted `c` within the limit in front of `rest`, a numeral in full length.
  lemma PrefixExactly(text: string, c: Cst, rest: string)
    ensures ParseDocument(text + [NUL], false) == Ok(c, rest) <==>
            && Accepted(c) && Depth(c) <= NESTING_LIMIT && Terminated(rest) && ReadsThere(c, rest)
            && exists bom: string, before: string ::
                 (bom == "" || bom == BOM) && AllBlank(before) && WrittenAs(text + [NUL], bom, before, c, rest)
  {
    hide ParseValue, Layout, ReadsThere, SkipBom, SkipBlanks;
    var t := text + [NUL];
    if ParseDocument(t, false) == Ok(c, rest) {
      PrefixIsWritten(text);
      ParsedReadsThere(SkipBlanks(SkipBom(t)), 0);
    }
    if && Accepted(c) && Depth(c) <= NESTING_LIMIT && Terminated(rest) && ReadsThere(c, rest)
       && exists bom: string, before: string ::
            (bom == "" || bom == BOM) && AllBlank(before) && WrittenAs(t, bom, before, c, rest) {
      var bom: string, before: string :|
        (bom == "" || bom == BOM) && AllBlank(before) && WrittenAs(t, bom, before, c, rest);
      PrefixIsAccepted(bom, before, c, rest);
    }
  }

  // "12-3" is read as 12.
  lemma NumeralEndsEarly()
    ensures var n := Numeral("", "12", false, "", NoExponent);
            ParseDocument("12-3" + [NUL], false) == Ok(Written(n), "-3" + [NUL])
  {
    hide ParseDocument, ReadNumeral;
    var n := Numeral("", "12", false, "", NoExponent);
    var rest := "-3" + [NUL];
    var t := "12-3" + [NUL];
    TwelveIsRead(n, t);
    ReadsLongest(t, n);
    assert NumeralText(n) == "12" && Layout(Written(n), rest) == t;
    assert "" + ("" + t) == t;
    PrefixIsAccepted("", "", Written(n), rest);
  }

  lemma TwelveIsRead(n: Numeral, t: string)
    requires n == Numeral("", "12", false, "", NoExponent) && t == "12-3" + [NUL]
    ensures ReadNumeral(t) == Reading(n)
  {
    hide NumberRun, DigitRun;
    var run := "12-3";
    NumberRunStops(run, [NUL]);
    assert run == "12" + "-3";
    DigitRunStops("12", "-3");
    assert run[2..] == "-3" && run[0..] == run;
  }

  lemma SkippedBom(t: string) returns (bom: string)
    ensures (bom == "" || bom == BOM) && t == bom + SkipBom(t)
  {
    bom := if SkipBom(t) == t then "" else BOM;
  }

  lemma AcceptedIsWritten(text: string)
    requires NUL !in text && ParseDocument(text + [NUL], true).Ok?
    ensures var c := ParseDocument(text + [NUL], true).tree;
            Accepted(c) && Depth(c) <= NESTING_LIMIT && Writes(text, c)
  {
    hide ParseValue, SkipBlanks, Skipped, Layout, SkipBom, Accepted, Depth;
    var t := text + [NUL];
    var u := SkipBom(t);
    var bom := SkippedBom(t);
    var before := Skipped(u);
    SkippedAndRest(u);
    var v := ParseValue(SkipBlanks(u), 0);
    ValueSound(SkipBlanks(u), 0);
    var after := Skipped(v.rest);
    SkippedAndRest(v.rest);
    var w := SkipBlanks(v.rest);
    var l := Layout(v.tree, after);
    LayoutAppend(v.tree, after, w);
    assert t == bom + (before + (l + w)) == (bom + (before + l)) + w;
    OnlyLastIsNul(text, bom + (before + l), w);
    assert WrittenAs(text, bom, before, v.tree, after);
  }

  lemma OnlyLastIsNul(text: string, front: string, w: string)
    requires NUL !in text && text + [NUL] == front + w && w != "" && w[0] == NUL
    ensures w == [NUL] && front == text
  {
    var t := text + [NUL];
    assert t[|front|] == NUL;
    assert forall i | 0 <= i < |text| :: t[i] == text[i] && text[i] in text;
    assert text == t[..|text|];
  }

  lemma WrittenIsAccepted(text: string, bom: string, before: string, c: Cst, after: string, requireNul: bool)
    requires NUL !in text && (bom == "" || bom == BOM) && AllBlank(before) && AllBlank(after)
    requires WrittenAs(text, bom, before, c, after) && Accepted(c)
    ensures Terminated(after + [NUL])
    ensures ParseDocument(text + [NUL], requireNul) ==
            if Depth(c) <= NESTING_LIMIT then Ok(c, if requireNul then [NUL] else after + [NUL]) else Fail
  {
    hide ParseValue, Skipped, Layout, SkipBom, SkipBlanks;
    var t := text + [NUL];
    var l := Layout(c, after + [NUL]);
    LayoutAppend(c, after, [NUL]);
    assert t == bom + (before + l);
    LayoutStartsVisibly(c, after + [NUL]);
    BomIsSkipped(bom, before, c, after + [NUL], t);
    SkipsExactly(before, l);
    ValueComplete(c, after + [NUL], 0);
    SkipsToNul(after);
  }

  lemma {:induction false} SkipsToNul(after: string)
    requires AllBlank(after)
    ensures SkipBlanks(after + [NUL]) == [NUL]
  {
    if after != "" {
      assert (after + [NUL])[1..] == after[1..] + [NUL];
      SkipsToNul(after[1..]);
    } else {
      assert after + [NUL] == [NUL];
    }
  }

  lemma BomIsSkipped(bom: string, before: string, c: Cst, rest: string, t: string)
    requires bom == "" || bom == BOM
    requires Accepted(c) && rest != "" && AllBlank(before) && t == bom + (before + Layout(c, rest))
    ensures SkipBom(t) == before + Layout(c, rest)
  {
    if c.Written? {
      NumeralFirst(c.numeral);
    }
    var l := Layout(c, rest);
    assert |l| >= 2 && l[0] < BOM[0];
    var u := before + l;
    assert u[0] == if before == "" then l[0] else before[0];
    if bom == "" {
      assert t == u;
    } else {
      assert t[3..] == u;
    }
  }
}
