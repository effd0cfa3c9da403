/**
 cJSON_Minify on any JSON text, with comments or without, not only on what the printer writes:
 it leaves the same value written without blanks.
 */
module MinifyAny {
  import opened CText
  import opened StringLiteral
  import opened Numbers
  import opened JsonValue
  import opened Grammar
  import opened ParserSpec
  import opened ParserTheorems
  import opened Document
  import opened MinifySpec

  // ---- What is dropped between tokens ----

  // A blank of RFC 8259, a comment up to the end of its line, or a comment up to the first `*/`.
  datatype Filler = White(code: int) | Line(text: string) | Block(text: string)
  {
    predicate Legal() {
      match this
      case White(code) => code == 32 || code == 9 || code == 13 || code == 10
      case Line(text) => '\n' !in text
      case Block(text) => forall i | 0 <= i < |text| :: !EndsComment(text + "*/", i)
    }

    function Text(): string
      requires Legal()
    {
      match this
      case White(code) => [code as char]
      case Line(text) => "//" + (text + "\n")
      case Block(text) => "/*" + (text + "*/")
    }
  }

  predicate EndsComment(t: string, i: nat) {
    i + 1 < |t| && t[i] == '*' && t[i + 1] == '/'
  }

  predicate AllFillers(fs: seq<Filler>) {
    forall i | 0 <= i < |fs| :: fs[i].Legal()
  }

  function FillersText(fs: seq<Filler>): string
    requires AllFillers(fs)
  {
    if fs == [] then "" else fs[0].Text() + FillersText(fs[1..])
  }

  ghost predicate Fills(s: string) {
    exists fs: seq<Filler> :: AllFillers(fs) && s == FillersText(fs)
  }

  lemma {:induction false} LineStrip(text: string, rest: string)
    requires '\n' !in text
    ensures AfterLine(text + ("\n" + rest)) == rest && AfterLine(text) == ""
  {
    var t := text + ("\n" + rest);
    if text == "" {
      assert t == "\n" + rest && t[1..] == rest;
    } else {
      assert text[0] in text && t[1..] == text[1..] + ("\n" + rest);
      LineStrip(text[1..], rest);
    }
  }

  lemma {:induction false} BlockStrip(text: string, rest: string)
    requires Block(text).Legal()
    ensures AfterBlock(text + ("*/" + rest)) == rest
  {
    var t := text + ("*/" + rest);
    if text == "" {
      assert t == "*/" + rest && t[2..] == rest;
    } else {
      var u := text[1..];
      forall i | 0 <= i < |u|
        ensures !EndsComment(u + "*/", i)
      {
        assert !EndsComment(text + "*/", i + 1);
        assert (u + "*/")[i] == (text + "*/")[i + 1] && (u + "*/")[i + 1] == (text + "*/")[i + 2];
      }
      assert !EndsComment(text + "*/", 0);
      assert t[0] == (text + "*/")[0] && t[1] == (text + "*/")[1];
      assert t[1..] == u + ("*/" + rest);
      BlockStrip(u, rest);
    }
  }

  lemma LineCommentStrip(text: string, rest: string)
    requires '\n' !in text
    ensures Strip("//" + (text + "\n") + rest) == Strip(rest)
  {
    hide AfterLine;
    var t := "//" + (text + "\n") + rest;
    LineStrip(text, rest);
    assert t[2..] == text + ("\n" + rest);
  }

  lemma BlockCommentStrip(text: string, rest: string)
    requires Block(text).Legal()
    ensures Strip("/*" + (text + "*/") + rest) == Strip(rest)
  {
    hide AfterBlock;
    var t := "/*" + (text + "*/") + rest;
    BlockStrip(text, rest);
    assert t[2..] == text + ("*/" + rest);
  }

  lemma FillerStrip(f: Filler, rest: string)
    requires f.Legal()
    ensures Strip(f.Text() + rest) == Strip(rest)
  {
    match f
    case White(code) =>
      assert (f.Text() + rest)[1..] == rest;
    case Line(text) =>
      hide Strip;
      LineCommentStrip(text, rest);
    case Block(text) =>
      hide Strip;
      BlockCommentStrip(text, rest);
  }

  lemma {:induction false} FillersStrip(fs: seq<Filler>, rest: string)
    requires AllFillers(fs)
    ensures Strip(FillersText(fs) + rest) == Strip(rest)
  {
    hide Strip;
    if fs == [] {
      assert "" + rest == rest;
    } else {
      var more := FillersText(fs[1..]);
      FillerStrip(fs[0], more + rest);
      FillersStrip(fs[1..], rest);
      assert FillersText(fs) + rest == fs[0].Text() + (more + rest);
    }
  }

  lemma GapStrip(s: string, rest: string)
    requires Fills(s)
    ensures Strip(s + rest) == Strip(rest)
  {
    hide Strip, FillersText;
    var fs: seq<Filler> :| AllFillers(fs) && s == FillersText(fs);
    FillersStrip(fs, rest);
  }

  // A comment that is never closed takes the rest of the text, a slash without a comment is
  // dropped alone.
  lemma UnfinishedStrip(text: string)
    ensures '\n' !in text ==> Strip("//" + text) == ""
    ensures (forall i | 0 <= i < |text| :: !EndsComment(text, i)) ==> Strip("/*" + text) == ""
    ensures text == "" || (text[0] != '/' && text[0] != '*') ==> Strip("/" + text) == Strip(text)
  {
    hide AfterLine, AfterBlock;
    assert ("//" + text)[2..] == text && ("/*" + text)[2..] == text && ("/" + text)[1..] == text;
    if '\n' !in text {
      LineStrip(text, "");
    }
    if forall i | 0 <= i < |text| :: !EndsComment(text, i) {
      OpenBlock(text);
    }
    NothingToStrip();
  }

  lemma {:induction false} OpenBlock(text: string)
    requires forall i | 0 <= i < |text| :: !EndsComment(text, i)
    ensures AfterBlock(text) == ""
  {
    if text != "" {
      assert !EndsComment(text, 0);
      forall i | 0 <= i < |text[1..]|
        ensures !EndsComment(text[1..], i)
      {
        assert !EndsComment(text, i + 1);
      }
      OpenBlock(text[1..]);
    }
  }

  lemma {:induction false} SpacesFill(b: string)
    requires forall i | 0 <= i < |b| :: b[i] in " \t\r\n"
    ensures Fills(b)
  {
    if b == "" {
      assert AllFillers([]) && FillersText([]) == "";
    } else {
      SpacesFill(b[1..]);
      var fs: seq<Filler> :| AllFillers(fs) && b[1..] == FillersText(fs);
      var f := White(b[0] as int);
      assert ([f] + fs)[1..] == fs && FillersText([f] + fs) == b;
    }
  }

  // ---- Trees ----

  // Blanks and comments between the tokens, and no string ends in a backslash.
  ghost predicate Commented(c: Cst)
    decreases c
  {
    match c
    case Quoted(body) => Closed(body) && !EndsInBackslash(body)
    case Written(n) => WellFormed(n)
    case Bracketed(blank, es) => Fills(blank) && CommentedElements(es)
    case Braced(blank, es) => Fills(blank) && CommentedEntries(es)
    case _ => true
  }

  ghost predicate CommentedElements(es: seq<Element>)
    decreases es
  {
    forall i | 0 <= i < |es| :: Fills(es[i].before) && Commented(es[i].value) && Fills(es[i].after)
  }

  ghost predicate CommentedEntries(es: seq<Entry>)
    decreases es
  {
    forall i | 0 <= i < |es| ::
      && Fills(es[i].before) && Closed(es[i].key) && !EndsInBackslash(es[i].key) && Fills(es[i].gap)
      && Fills(es[i].lead) && Commented(es[i].value) && Fills(es[i].after)
  }

  // The same tree without blanks and comments.
  function Compact(c: Cst): Cst
    decreases c
  {
    match c
    case Bracketed(_, es) => Bracketed("", CompactElements(es))
    case Braced(_, es) => Braced("", CompactEntries(es))
    case _ => c
  }

  function CompactElements(es: seq<Element>): (cs: seq<Element>)
    ensures |cs| == |es|
    decreases es
  {
    if es == [] then [] else [Element("", Compact(es[0].value), "")] + CompactElements(es[1..])
  }

  function CompactEntries(es: seq<Entry>): (cs: seq<Entry>)
    ensures |cs| == |es|
    decreases es
  {
    if es == [] then []
    else [Entry("", es[0].key, "", "", Compact(es[0].value), "")] + CompactEntries(es[1..])
  }

  // ---- Strings ----

  // The scan of MinifyString passes the text: a quote comes only behind a backslash.
  predicate Guarded(body: string)
    decreases |body|
  {
    body == "" ||
    (body[0] != QUOTE &&
     if body[0] == BACKSLASH && |body| >= 2 && body[1] == QUOTE then Guarded(body[2..]) else Guarded(body[1..]))
  }

  lemma {:induction false} ClosedIsGuarded(body: string)
    requires Closed(body)
    ensures Guarded(body)
  {
    if body == "" {
    } else if body[0] == BACKSLASH {
      ClosedIsGuarded(body[2..]);
      assert body[1..][1..] == body[2..];
    } else {
      ClosedIsGuarded(body[1..]);
    }
  }

  lemma {:induction false} BodyInString(body: string, rest: string)
    requires Guarded(body) && !EndsInBackslash(body)
    ensures InString(body + [QUOTE] + rest) == body + [QUOTE] + Strip(rest)
    decreases |body|
  {
    hide Strip;
    var w := body + [QUOTE] + rest;
    if body == "" {
      assert w[1..] == rest;
    } else {
      var k := if body[0] == BACKSLASH && |body| >= 2 && body[1] == QUOTE then 2 else 1;
      var t := body[k..];
      assert w[k..] == t + [QUOTE] + rest;
      BodyInString(t, rest);
      assert body == body[..k] + t;
      assert body[..k] + (t + [QUOTE] + Strip(rest)) == body + [QUOTE] + Strip(rest);
    }
  }

  lemma QuotedStrip(body: string, rest: string)
    requires Closed(body) && !EndsInBackslash(body)
    ensures Strip([QUOTE] + (body + [QUOTE] + rest)) == [QUOTE] + (body + [QUOTE] + Strip(rest))
  {
    hide Strip, InString;
    ClosedIsGuarded(body);
    BodyInString(body, rest);
    OpenStrip(body + [QUOTE] + rest);
  }

  // ---- Trees ----

  lemma {:induction false} LayoutStrip(c: Cst, rest: string)
    requires Commented(c)
    ensures Strip(Layout(c, rest)) == Layout(Compact(c), Strip(rest))
    decreases c, 1
  {
    hide Strip, LayoutElements, LayoutEntries, NumeralText, CompactElements, CompactEntries, CommentedElements,
         CommentedEntries, WellFormed, Closed, Fills;
    match c
    case LNull =>
      PlainStrip("null", rest);
    case LFalse =>
      PlainStrip("false", rest);
    case LTrue =>
      PlainStrip("true", rest);
    case Quoted(body) =>
      QuotedStrip(body, rest);
    case Written(n) =>
      NumeralStrip(n, rest);
    case Bracketed(blank, es) =>
      PlainStrip("]", rest);
      if es == [] {
        GapStrip(blank, "]" + rest);
        PlainStrip("[", blank + ("]" + rest));
        assert "" + ("]" + Strip(rest)) == "]" + Strip(rest);
        NothingCompact();
      } else {
        ElementsStrip(es, "]" + rest);
        PlainStrip("[", LayoutElements(es, "]" + rest));
      }
    case Braced(blank, es) =>
      PlainStrip("}", rest);
      if es == [] {
        GapStrip(blank, "}" + rest);
        PlainStrip("{", blank + ("}" + rest));
        assert "" + ("}" + Strip(rest)) == "}" + Strip(rest);
        NothingCompact();
      } else {
        EntriesStrip(es, "}" + rest);
        PlainStrip("{", LayoutEntries(es, "}" + rest));
      }
  }

  lemma NothingCompact()
    ensures CompactElements([]) == [] && CompactEntries([]) == []
  {
  }

  lemma NumeralStrip(n: Numeral, rest: string)
    requires WellFormed(n)
    ensures Strip(NumeralText(n) + rest) == NumeralText(n) + Strip(rest)
  {
    hide Strip, NumeralText;
    NumeralIsNumberChars(n);
    PlainStrip(NumeralText(n), rest);
  }

  lemma {:induction false} ElementsStrip(es: seq<Element>, rest: string)
    requires es != [] && CommentedElements(es)
    ensures Strip(LayoutElements(es, rest)) == LayoutElements(CompactElements(es), Strip(rest))
    decreases es, 0
  {
    hide Strip, Layout, Commented, Compact, Fills;
    var e, more := es[0], es[1..];
    var tail := if |es| == 1 then rest else "," + LayoutElements(more, rest);
    var cs := CompactElements(es);
    assert cs[1..] == CompactElements(more);
    var compactTail := if |es| == 1 then Strip(rest) else "," + LayoutElements(cs[1..], Strip(rest));
    assert Strip(tail) == compactTail by {
      if |es| > 1 {
        ElementsStrip(more, rest);
        PlainStrip(",", LayoutElements(more, rest));
      }
    }
    GapStrip(e.after, tail);
    LayoutStrip(e.value, e.after + tail);
    GapStrip(e.before, Layout(e.value, e.after + tail));
    assert "" + compactTail == compactTail;
    assert "" + Layout(Compact(e.value), compactTail) == Layout(Compact(e.value), compactTail);
  }

  // Behind the quote that opens a key.
  lemma KeyStripped(e: Entry, value: string)
    requires Closed(e.key) && !EndsInBackslash(e.key) && Fills(e.gap) && Fills(e.lead)
    ensures Strip([QUOTE] + (e.key + [QUOTE] + (e.gap + (":" + (e.lead + value)))))
            == [QUOTE] + (e.key + [QUOTE] + (":" + Strip(value)))
  {
    hide Strip, Closed, Fills;
    GapStrip(e.lead, value);
    PlainStrip(":", e.lead + value);
    GapStrip(e.gap, ":" + (e.lead + value));
    QuotedStrip(e.key, e.gap + (":" + (e.lead + value)));
  }

  lemma {:induction false} EntriesStrip(es: seq<Entry>, rest: string)
    requires es != [] && CommentedEntries(es)
    ensures Strip(LayoutEntries(es, rest)) == LayoutEntries(CompactEntries(es), Strip(rest))
    decreases es, 0
  {
    hide Strip, Layout, Commented, Compact, Closed, Fills;
    var e, more := es[0], es[1..];
    var tail := if |es| == 1 then rest else "," + LayoutEntries(more, rest);
    var cs := CompactEntries(es);
    assert cs[1..] == CompactEntries(more);
    var compactTail := if |es| == 1 then Strip(rest) else "," + LayoutEntries(cs[1..], Strip(rest));
    assert Strip(tail) == compactTail by {
      if |es| > 1 {
        EntriesStrip(more, rest);
        PlainStrip(",", LayoutEntries(more, rest));
      }
    }
    GapStrip(e.after, tail);
    LayoutStrip(e.value, e.after + tail);
    var value := Layout(e.value, e.after + tail);
    KeyStripped(e, value);
    GapStrip(e.before, [QUOTE] + (e.key + [QUOTE] + (e.gap + (":" + (e.lead + value)))));
    var compactValue := Layout(Compact(e.value), compactTail);
    assert "" + compactTail == compactTail && "" + compactValue == compactValue;
    assert "" + (":" + compactValue) == ":" + compactValue;
    var all := [QUOTE] + (e.key + [QUOTE] + (":" + compactValue));
    assert "" + all == all;
  }

  // ---- The value ----

  lemma {:induction false} CompactMeansSame(c: Cst)
    requires Accepted(c)
    ensures Accepted(Compact(c)) && Meaning(Compact(c)) == Meaning(c) && Depth(Compact(c)) == Depth(c)
    decreases c, 1
  {
    hide GoodBody, GoodNumeral, BodyMeaning, DoubleOf;
    match c
    case Bracketed(_, es) =>
      ElementsMeanSame(es);
    case Braced(_, es) =>
      EntriesMeanSame(es);
    case _ =>
  }

  lemma {:induction false} ElementsMeanSame(es: seq<Element>)
    requires AcceptedElements(es)
    ensures var cs := CompactElements(es);
            AcceptedElements(cs) && ElementsMeaning(cs) == ElementsMeaning(es) && ElementsDepth(cs) == ElementsDepth(es)
    decreases es, 0
  {
    hide Accepted, Compact, Meaning, Depth;
    if es == [] {
      NothingAccepted();
    } else {
      var e, more := es[0], es[1..];
      CompactMeansSame(e.value);
      ElementsMeanSame(more);
      var d := Element("", Compact(e.value), "");
      assert es == [e] + more && ([d] + CompactElements(more))[1..] == CompactElements(more);
      ElementsAcceptedCons(d, CompactElements(more));
      ElementsMeaningCons(e, more);
      ElementsMeaningCons(d, CompactElements(more));
    }
  }

  lemma {:induction false} EntriesMeanSame(es: seq<Entry>)
    requires AcceptedEntries(es)
    ensures var cs := CompactEntries(es);
            AcceptedEntries(cs) && EntriesMeaning(cs) == EntriesMeaning(es) && EntriesDepth(cs) == EntriesDepth(es)
    decreases es, 0
  {
    hide Accepted, Compact, Meaning, Depth, GoodBody, BodyMeaning;
    if es == [] {
      NothingAccepted();
    } else {
      var e, more := es[0], es[1..];
      CompactMeansSame(e.value);
      EntriesMeanSame(more);
      var d := Entry("", e.key, "", "", Compact(e.value), "");
      assert es == [e] + more && ([d] + CompactEntries(more))[1..] == CompactEntries(more);
      EntriesAcceptedCons(d, CompactEntries(more));
      EntriesMeaningCons(e, more);
      EntriesMeaningCons(d, CompactEntries(more));
    }
  }

  // Minify on any such text leaves the value written without blanks and comments, and parsing
  // the result gives that value, the one of the text if it had no comments.
  lemma MinifyKeepsValue(text: string, bom: string, before: string, c: Cst, after: string)
    requires NUL !in text && (bom == "" || bom == BOM) && Fills(before) && Fills(after)
    requires WrittenAs(text, bom, before, c, after) && Commented(c)
    requires Accepted(Compact(c)) && Depth(Compact(c)) <= NESTING_LIMIT
    ensures Strip(text) == bom + Layout(Compact(c), "") && NUL !in Strip(text)
    ensures ParseDocument(Strip(text) + [NUL], true) == Ok(Compact(c), [NUL])
    ensures Accepted(c) ==> Meaning(Compact(c)) == Meaning(c)
  {
    hide Strip, Layout, Accepted, Commented, ParseDocument, Meaning, Depth, Compact, Fills;
    LayoutStrip(c, after);
    assert after + "" == after;
    GapStrip(after, "");
    NothingToStrip();
    GapStrip(before, Layout(c, after));
    PlainStrip(bom, before + Layout(c, after));
    if Accepted(c) {
      CompactMeansSame(c);
    }
    StripAddsNothing(text, NUL);
    assert "" + Layout(Compact(c), "") == Layout(Compact(c), "");
    assert WrittenAs(Strip(text), bom, "", Compact(c), "");
    WrittenIsAccepted(Strip(text), bom, "", Compact(c), "", true);
  }

  lemma NothingToStrip()
    ensures Strip("") == ""
  {
  }
}
