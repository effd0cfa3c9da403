/**
 The language of the parser: soundness, completeness, and exactly which texts are accepted.
 */
module ParserTheorems {
  import opened CText
  import opened StringLiteral
  import opened Numbers
  import opened JsonValue
  import opened Grammar
  import opened ParserSpec

  // ---- Soundness ----

  lemma {:induction false} ValueSound(t: string, depth: nat)
    requires Terminated(t) && depth <= NESTING_LIMIT && ParseValue(t, depth).Ok?
    ensures var r := ParseValue(t, depth);
            Accepted(r.tree) && depth + Depth(r.tree) <= NESTING_LIMIT && Layout(r.tree, r.rest) == t
    decreases |t|, 3
  {
    hide ParseArray, ParseObject, LayoutElements, LayoutEntries, AcceptedElements, AcceptedEntries, ElementsDepth,
         EntriesDepth, NumeralText, ReadNumeral, Decode, Closed, CloseAt;
    if ReadsNull(t) {
      assert t == "null" + t[4..];
    } else if ReadsFalse(t) {
      assert t == "false" + t[5..];
    } else if ReadsTrue(t) {
      assert t == "true" + t[4..];
    } else if t[0] == QUOTE {
      ParsedIsQuoted(t);
    } else if t[0] == '-' || Digit(t[0]) {
      NumeralIsRead(t);
    } else if t[0] == '[' {
      ArraySound(t, depth);
    } else {
      ObjectSound(t, depth);
    }
  }

  lemma {:induction false} ArraySound(t: string, depth: nat)
    requires Terminated(t) && t[0] == '[' && depth <= NESTING_LIMIT && ParseArray(t, depth).Ok?
    ensures var r := ParseArray(t, depth);
            Accepted(r.tree) && depth + Depth(r.tree) <= NESTING_LIMIT && Layout(r.tree, r.rest) == t
    decreases |t|, 2
  {
    hide ParseElements, SkipBlanks, Skipped, LayoutElements;
    var u := SkipBlanks(t[1..]);
    assert t == "[" + t[1..];
    if u[0] == ']' {
      SkippedAndRest(t[1..]);
      assert u == "]" + u[1..];
    } else {
      ElementsSound(t[1..], depth + 1);
    }
  }

  // The layout of one element followed by `tail`.
  function LayoutElement(e: Element, tail: string): string {
    e.before + Layout(e.value, e.after + tail)
  }

  predicate AcceptedElement(e: Element) {
    AllBlank(e.before) && Accepted(e.value) && AllBlank(e.after)
  }

  lemma {:induction false} ElementSound(t: string, depth: nat)
    requires Terminated(t) && depth <= NESTING_LIMIT && ParseElement(t, depth).GotElement?
    ensures var r := ParseElement(t, depth);
            && AcceptedElement(r.element) && depth + Depth(r.element.value) <= NESTING_LIMIT
            && LayoutElement(r.element, r.rest) == t
    decreases |t|, 4
  {
    SkippedAndRest(t);
    ValueSound(SkipBlanks(t), depth);
    SkippedAndRest(ParseValue(SkipBlanks(t), depth).rest);
  }

  lemma {:induction false} ElementsSound(t: string, depth: nat)
    requires Terminated(t) && depth <= NESTING_LIMIT && ParseElements(t, depth).Elements?
    ensures var r := ParseElements(t, depth);
            && AcceptedElements(r.elements) && depth + ElementsDepth(r.elements) <= NESTING_LIMIT
            && LayoutElements(r.elements, "]" + r.rest) == t
    decreases |t|, 5
  {
    hide SkipBlanks, Skipped, ParseElement, LayoutElements, LayoutElement;
    var e := ParseElement(t, depth);
    ElementSound(t, depth);
    var w := e.rest;
    var r := ParseElements(t, depth);
    assert w == [w[0]] + w[1..];
    if w[0] == ',' {
      ElementsSound(w[1..], depth);
      var es := ParseElements(w[1..], depth).elements;
      assert r.elements[1..] == es;
      ElementsAcceptedCons(e.element, es);
      LayoutElementsCons(e.element, es, "]" + r.rest);
    } else {
      ElementsAcceptedCons(e.element, []);
      assert [e.element] + [] == [e.element];
      LayoutElementsCons(e.element, [], "]" + r.rest);
    }
  }

  lemma ElementsAcceptedCons(e: Element, es: seq<Element>)
    ensures AcceptedElements([e] + es) <==> AcceptedElement(e) && AcceptedElements(es)
  {
    var all := [e] + es;
    if AcceptedElements(all) {
      assert AcceptedElement(all[0]);
      forall i | 0 <= i < |es|
        ensures AcceptedElement(es[i])
      {
        assert AcceptedElement(all[i + 1]);
      }
    }
  }

  lemma LayoutElementsCons(e: Element, es: seq<Element>, rest: string)
    ensures LayoutElements([e] + es, rest)
            == LayoutElement(e, if es == [] then rest else "," + LayoutElements(es, rest))
  {
    assert ([e] + es)[1..] == es;
  }

  lemma {:induction false} ObjectSound(t: string, depth: nat)
    requires Terminated(t) && t[0] == '{' && depth <= NESTING_LIMIT && ParseObject(t, depth).Ok?
    ensures var r := ParseObject(t, depth);
            Accepted(r.tree) && depth + Depth(r.tree) <= NESTING_LIMIT && Layout(r.tree, r.rest) == t
    decreases |t|, 2
  {
    hide ParseEntries, SkipBlanks, Skipped, LayoutEntries;
    var u := SkipBlanks(t[1..]);
    assert t == "{" + t[1..];
    if u[0] == '}' {
      SkippedAndRest(t[1..]);
      assert u == "}" + u[1..];
    } else {
      EntriesSound(t[1..], depth + 1);
    }
  }

  // The layout of one entry, its value followed by `tail`.
  function LayoutEntry(e: Entry, tail: string): string {
    e.before + ([QUOTE] + (e.key + [QUOTE] + (e.gap + (":" + (e.lead + Layout(e.value, e.after + tail))))))
  }

  predicate AcceptedEntry(e: Entry) {
    && AllBlank(e.before) && GoodBody(e.key) && AllBlank(e.gap)
    && AllBlank(e.lead) && Accepted(e.value) && AllBlank(e.after)
  }

  lemma {:induction false} EntrySound(t: string, depth: nat)
    requires Terminated(t) && depth <= NESTING_LIMIT && ParseEntry(t, depth).GotEntry?
    ensures var r := ParseEntry(t, depth);
            AcceptedEntry(r.entry) && depth + Depth(r.entry.value) <= NESTING_LIMIT && LayoutEntry(r.entry, r.rest) == t
    decreases |t|, 4
  {
    hide SkipBlanks, Skipped, ParseValue, ParseQuoted, Layout;
    var k := SkipBlanks(t);
    var q := ParseQuoted(k);
    var c := SkipBlanks(q.rest);
    var l := SkipBlanks(c[1..]);
    var v := ParseValue(l, depth);
    ValueSound(l, depth);
    EntryParts(t, k, q, c, l, v);
  }

  lemma EntryParts(t: string, k: string, q: StringParse, c: string, l: string, v: Parse)
    requires t != "" && k == SkipBlanks(t) && q == ParseQuoted(k) && q.GotString?
    requires q.rest != "" && c == SkipBlanks(q.rest) && c[0] == ':' && |c| > 1
    requires l == SkipBlanks(c[1..]) && v.Ok? && v.rest != "" && Layout(v.tree, v.rest) == l && Accepted(v.tree)
    ensures var e := Entry(Skipped(t), q.body, Skipped(q.rest), Skipped(c[1..]), v.tree, Skipped(v.rest));
            AcceptedEntry(e) && LayoutEntry(e, SkipBlanks(v.rest)) == t
  {
    hide SkipBlanks, Skipped, ParseQuoted, Layout;
    SkippedAndRest(v.rest);
    SkippedAndRest(c[1..]);
    assert c == ":" + c[1..];
    SkippedAndRest(q.rest);
    ParsedIsQuoted(k);
    SkippedAndRest(t);
  }

  lemma {:induction false} EntriesSound(t: string, depth: nat)
    requires Terminated(t) && depth <= NESTING_LIMIT && ParseEntries(t, depth).Entries?
    ensures var r := ParseEntries(t, depth);
            && AcceptedEntries(r.entries) && depth + EntriesDepth(r.entries) <= NESTING_LIMIT
            && LayoutEntries(r.entries, "}" + r.rest) == t
    decreases |t|, 5
  {
    hide SkipBlanks, Skipped, ParseEntry, LayoutEntries, LayoutEntry;
    var e := ParseEntry(t, depth);
    EntrySound(t, depth);
    var w := e.rest;
    var r := ParseEntries(t, depth);
    assert w == [w[0]] + w[1..];
    if w[0] == ',' {
      EntriesSound(w[1..], depth);
      var es := ParseEntries(w[1..], depth).entries;
      assert r.entries[1..] == es;
      EntriesAcceptedCons(e.entry, es);
      LayoutEntriesCons(e.entry, es, "}" + r.rest);
    } else {
      EntriesAcceptedCons(e.entry, []);
      assert [e.entry] + [] == [e.entry];
      LayoutEntriesCons(e.entry, [], "}" + r.rest);
    }
  }

  lemma EntriesAcceptedCons(e: Entry, es: seq<Entry>)
    ensures AcceptedEntries([e] + es) <==> AcceptedEntry(e) && AcceptedEntries(es)
  {
    var all := [e] + es;
    if AcceptedEntries(all) {
      assert AcceptedEntry(all[0]);
      forall i | 0 <= i < |es|
        ensures AcceptedEntry(es[i])
      {
        assert AcceptedEntry(all[i + 1]);
      }
    }
  }

  lemma NothingAccepted()
    ensures AcceptedElements([]) && ElementsMeaning([]) == [] && AcceptedEntries([]) && EntriesMeaning([]) == []
  {
  }

  lemma ElementsMeaningCons(e: Element, es: seq<Element>)
    requires AcceptedElement(e) && AcceptedElements(es) && AcceptedElements([e] + es)
    ensures ElementsMeaning([e] + es) == [Meaning(e.value)] + ElementsMeaning(es)
  {
    hide Meaning;
  }

  lemma EntriesMeaningCons(e: Entry, es: seq<Entry>)
    requires AcceptedEntry(e) && AcceptedEntries(es) && AcceptedEntries([e] + es)
    ensures EntriesMeaning([e] + es) == [Member(BodyMeaning(e.key), Meaning(e.value))] + EntriesMeaning(es)
  {
    hide Meaning, BodyMeaning;
  }

  lemma LayoutEntriesCons(e: Entry, es: seq<Entry>, rest: string)
    ensures LayoutEntries([e] + es, rest) == LayoutEntry(e, if es == [] then rest else "," + LayoutEntries(es, rest))
  {
    assert ([e] + es)[1..] == es;
  }

  // ---- Completeness ----

  // A numeral ends only where no number character follows.
  predicate Delimited(c: Cst, rest: string) {
    rest != "" && (c.Written? ==> !NumberChar(rest[0]))
  }

  lemma LayoutStartsVisibly(c: Cst, rest: string)
    requires Accepted(c)
    ensures var t := Layout(c, rest); t != "" && !Blank(t[0]) && t[0] != ']' && t[0] != '}'
  {
    if c.Written? {
      NumeralFirst(c.numeral);
    }
  }

  lemma LayoutTerminated(c: Cst, rest: string)
    requires Terminated(rest)
    ensures Terminated(Layout(c, rest))
    decreases c, 1
  {
    match c
    case Bracketed(_, es) =>
      if es != [] {
        ElementsTerminated(es, "]" + rest);
      }
    case Braced(_, es) =>
      if es != [] {
        EntriesTerminated(es, "}" + rest);
      }
    case _ =>
  }

  lemma ElementsTerminated(es: seq<Element>, rest: string)
    requires es != [] && Terminated(rest)
    ensures Terminated(LayoutElements(es, rest))
    decreases es, 0
  {
    var e := es[0];
    if |es| > 1 {
      ElementsTerminated(es[1..], rest);
      LayoutTerminated(e.value, e.after + ("," + LayoutElements(es[1..], rest)));
    } else {
      LayoutTerminated(e.value, e.after + rest);
    }
  }

  lemma EntriesTerminated(es: seq<Entry>, rest: string)
    requires es != [] && Terminated(rest)
    ensures Terminated(LayoutEntries(es, rest))
    decreases es, 0
  {
    var e := es[0];
    if |es| > 1 {
      EntriesTerminated(es[1..], rest);
      LayoutTerminated(e.value, e.after + ("," + LayoutEntries(es[1..], rest)));
    } else {
      LayoutTerminated(e.value, e.after + rest);
    }
  }

  // Every accepted layout is parsed back, exactly when its nesting fits.
  lemma {:induction false} ValueComplete(c: Cst, rest: string, depth: nat)
    requires Accepted(c) && Terminated(rest) && Delimited(c, rest) && depth <= NESTING_LIMIT
    ensures Terminated(Layout(c, rest))
    ensures ParseValue(Layout(c, rest), depth) == if depth + Depth(c) <= NESTING_LIMIT then Ok(c, rest) else Fail
    decreases c, 1
  {
    LayoutTerminated(c, rest);
    match c
    case Quoted(body) =>
      QuotedComplete(body, rest, depth);
    case Written(n) =>
      NumberComplete(n, rest, depth);
    case Bracketed(_, _) =>
      ArrayComplete(c, rest, depth);
    case Braced(_, _) =>
      ObjectComplete(c, rest, depth);
    case _ =>
      KeywordComplete(c, rest, depth);
  }

  lemma KeywordComplete(c: Cst, rest: string, depth: nat)
    requires c.LNull? || c.LFalse? || c.LTrue?
    requires Terminated(rest) && depth <= NESTING_LIMIT && Terminated(Layout(c, rest))
    ensures ParseValue(Layout(c, rest), depth) == Ok(c, rest)
  {
    var t := Layout(c, rest);
    if c.LFalse? {
      assert t[0] == 'f' && t[5..] == rest;
    } else {
      assert t[4..] == rest && (c.LTrue? ==> t[0] == 't');
    }
  }

  lemma QuotedComplete(body: string, rest: string, depth: nat)
    requires GoodBody(body) && Terminated(rest) && depth <= NESTING_LIMIT
    requires Terminated([QUOTE] + (body + [QUOTE] + rest))
    ensures ParseValue([QUOTE] + (body + [QUOTE] + rest), depth) == Ok(Quoted(body), rest)
  {
    QuotedIsParsed(body, rest);
  }

  lemma NumberComplete(n: Numeral, rest: string, depth: nat)
    requires GoodNumeral(n) && Terminated(rest) && !NumberChar(rest[0]) && depth <= NESTING_LIMIT
    requires Terminated(NumeralText(n) + rest)
    ensures ParseValue(NumeralText(n) + rest, depth) == Ok(Written(n), rest)
  {
    var text := NumeralText(n);
    NumeralParses(n, rest);
    NumeralFirst(n);
    PrefixedByNumeral(text, rest, n, depth);
  }

  lemma PrefixedByNumeral(text: string, rest: string, n: Numeral, depth: nat)
    requires text != "" && (text[0] == '-' || Digit(text[0])) && text == NumeralText(n)
    requires Terminated(text + rest) && depth <= NESTING_LIMIT && ReadNumeral(text + rest) == Reading(n)
    ensures ParseValue(text + rest, depth) == Ok(Written(n), rest)
  {
    hide ParseArray, ParseObject, ParseString, Strtod, NumberRun, NumeralText;
    var t := text + rest;
    assert t[|text|..] == rest && t[0] == text[0];
    assert ParseNumber(t) == Ok(Written(n), rest);
  }

  lemma BracketOpens(t: string, depth: nat)
    requires Terminated(t) && depth <= NESTING_LIMIT
    ensures t[0] == '[' ==> ParseValue(t, depth) == ParseArray(t, depth)
    ensures t[0] == '{' ==> ParseValue(t, depth) == ParseObject(t, depth)
  {
    hide ParseArray, ParseObject, ParseString, ParseNumber;
  }

  lemma {:induction false} ArrayComplete(c: Cst, rest: string, depth: nat)
    requires c.Bracketed? && Accepted(c) && Terminated(rest) && depth <= NESTING_LIMIT
    requires Terminated(Layout(c, rest))
    ensures ParseValue(Layout(c, rest), depth) == if depth + Depth(c) <= NESTING_LIMIT then Ok(c, rest) else Fail
    decreases c, 0
  {
    hide ParseValue, ParseElements, SkipBlanks, Skipped, LayoutElements, LayoutEntries;
    var es := c.elements;
    var inner := if es == [] then c.blank + ("]" + rest) else LayoutElements(es, "]" + rest);
    var t := "[" + inner;
    assert t == Layout(c, rest) && t[1..] == inner;
    BracketOpens(t, depth);
    if es == [] {
      SkipsExactly(c.blank, "]" + rest);
      assert ("]" + rest)[1..] == rest;
    } else {
      ElementsTerminated(es, "]" + rest);
      FirstElementVisible(es, "]" + rest);
      if depth < NESTING_LIMIT {
        ElementsComplete(es, rest, depth + 1);
      }
    }
  }

  lemma FirstElementVisible(es: seq<Element>, rest: string)
    requires es != [] && AcceptedElements(es)
    ensures var t := LayoutElements(es, rest); t != "" && SkipBlanks(t)[0] != ']'
  {
    var e := es[0];
    var tail := e.after + (if |es| == 1 then rest else "," + LayoutElements(es[1..], rest));
    LayoutStartsVisibly(e.value, tail);
    SkipsExactly(e.before, Layout(e.value, tail));
  }

  lemma {:induction false} ElementComplete(e: Element, tail: string, depth: nat)
    requires AcceptedElement(e) && Terminated(tail) && depth <= NESTING_LIMIT
    requires Terminated(LayoutElement(e, tail)) && !Blank(tail[0]) && !NumberChar(tail[0])
    ensures ParseElement(LayoutElement(e, tail), depth) ==
            if depth + Depth(e.value) <= NESTING_LIMIT then GotElement(e, tail) else NoElement
    decreases e, 2
  {
    hide SkipBlanks, Skipped, Layout, ParseValue;
    LayoutStartsVisibly(e.value, e.after + tail);
    ValueComplete(e.value, e.after + tail, depth);
    SkipsExactly(e.after, tail);
    SkipsExactly(e.before, Layout(e.value, e.after + tail));
  }

  lemma {:induction false} ElementsComplete(es: seq<Element>, rest: string, depth: nat)
    requires es != [] && AcceptedElements(es) && Terminated(rest) && depth <= NESTING_LIMIT
    ensures Terminated(LayoutElements(es, "]" + rest))
    ensures ParseElements(LayoutElements(es, "]" + rest), depth) ==
            if depth + ElementsDepth(es) <= NESTING_LIMIT then Elements(es, rest) else NoElements
    decreases es, 3
  {
    hide ParseElement, SkipBlanks, Skipped, Layout, LayoutElement, LayoutElements;
    var e := es[0];
    ElementsTerminated(es, "]" + rest);
    var tail := if |es| == 1 then "]" + rest else "," + LayoutElements(es[1..], "]" + rest);
    if |es| > 1 {
      ElementsTerminated(es[1..], "]" + rest);
    }
    assert es == [e] + es[1..];
    LayoutElementsCons(e, es[1..], "]" + rest);
    ElementsAcceptedCons(e, es[1..]);
    ElementComplete(e, tail, depth);
    assert tail[1..] == if |es| == 1 then rest else LayoutElements(es[1..], "]" + rest);
    if |es| == 1 {
      assert es == [e];
    } else {
      ElementsComplete(es[1..], rest, depth);
    }
  }

  lemma {:induction false} ObjectComplete(c: Cst, rest: string, depth: nat)
    requires c.Braced? && Accepted(c) && Terminated(rest) && depth <= NESTING_LIMIT
    requires Terminated(Layout(c, rest))
    ensures ParseValue(Layout(c, rest), depth) == if depth + Depth(c) <= NESTING_LIMIT then Ok(c, rest) else Fail
    decreases c, 0
  {
    hide ParseValue, ParseEntries, SkipBlanks, Skipped, LayoutElements, LayoutEntries;
    var es := c.entries;
    var inner := if es == [] then c.blank + ("}" + rest) else LayoutEntries(es, "}" + rest);
    var t := "{" + inner;
    assert t == Layout(c, rest) && t[1..] == inner;
    BracketOpens(t, depth);
    if es == [] {
      SkipsExactly(c.blank, "}" + rest);
      assert ("}" + rest)[1..] == rest;
    } else {
      EntriesTerminated(es, "}" + rest);
      FirstEntryVisible(es, "}" + rest);
      if depth < NESTING_LIMIT {
        EntriesComplete(es, rest, depth + 1);
      }
    }
  }

  lemma FirstEntryVisible(es: seq<Entry>, rest: string)
    requires es != [] && AcceptedEntries(es)
    ensures var t := LayoutEntries(es, rest); t != "" && SkipBlanks(t)[0] == QUOTE
  {
    var e := es[0];
    var tail := e.key + [QUOTE] + (e.gap + (":" + (e.lead +
      Layout(e.value, e.after + (if |es| == 1 then rest else "," + LayoutEntries(es[1..], rest))))));
    SkipsExactly(e.before, [QUOTE] + tail);
  }

  lemma {:induction false} EntryComplete(e: Entry, tail: string, depth: nat)
    requires AcceptedEntry(e) && Terminated(tail) && depth <= NESTING_LIMIT
    requires Terminated(LayoutEntry(e, tail)) && !Blank(tail[0]) && !NumberChar(tail[0])
    ensures ParseEntry(LayoutEntry(e, tail), depth) ==
            if depth + Depth(e.value) <= NESTING_LIMIT then GotEntry(e, tail) else NoEntry
    decreases e, 2
  {
    hide SkipBlanks, Skipped, ParseQuoted, Layout, ParseValue;
    var value := Layout(e.value, e.after + tail);
    ValueComplete(e.value, e.after + tail, depth);
    LayoutStartsVisibly(e.value, e.after + tail);
    var colon := ":" + (e.lead + value);
    assert colon[1..] == e.lead + value;
    SkipsExactly(e.after, tail);
    SkipsExactly(e.lead, value);
    SkipsExactly(e.gap, colon);
    QuotedIsParsed(e.key, e.gap + colon);
    SkipsExactly(e.before, [QUOTE] + (e.key + [QUOTE] + (e.gap + colon)));
  }

  lemma {:induction false} EntriesComplete(es: seq<Entry>, rest: string, depth: nat)
    requires es != [] && AcceptedEntries(es) && Terminated(rest) && depth <= NESTING_LIMIT
    ensures Terminated(LayoutEntries(es, "}" + rest))
    ensures ParseEntries(LayoutEntries(es, "}" + rest), depth) ==
            if depth + EntriesDepth(es) <= NESTING_LIMIT then Entries(es, rest) else NoEntries
    decreases es, 3
  {
    hide ParseEntry, SkipBlanks, Skipped, Layout, LayoutEntry, LayoutEntries;
    var e := es[0];
    EntriesTerminated(es, "}" + rest);
    var tail := if |es| == 1 then "}" + rest else "," + LayoutEntries(es[1..], "}" + rest);
    if |es| > 1 {
      EntriesTerminated(es[1..], "}" + rest);
    }
    assert es == [e] + es[1..];
    LayoutEntriesCons(e, es[1..], "}" + rest);
    EntriesAcceptedCons(e, es[1..]);
    EntryComplete(e, tail, depth);
    assert tail[1..] == if |es| == 1 then rest else LayoutEntries(es[1..], "}" + rest);
    if |es| == 1 {
      assert es == [e];
    } else {
      EntriesComplete(es[1..], rest, depth);
    }
  }
}
