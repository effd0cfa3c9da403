/**
 The bytes of a printed text, judged by scanners that know nothing of the printer: how lines
 break and are indented in formatted output, that unformatted output has no blanks, and how
 deep the brackets of any text are nested.
 */
module FormatScan {
  import opened StringLiteral
  import opened Numbers
  import opened JsonValue
  import opened Grammar
  import opened ParserSpec
  import opened Rendering

  // The text behind the quote that ends a string.
  function Behind(t: string): (r: string)
    ensures |r| <= |t|
  {
    if t == "" then ""
    else if t[0] == '\"' then t[1..]
    else if t[0] == '\\' then if |t| < 2 then "" else Behind(t[2..])
    else Behind(t[1..])
  }

  function TabCount(t: string): (n: nat)
    ensures n <= |t|
  {
    if t == "" || t[0] != '\t' then 0 else 1 + TabCount(t[1..])
  }

  predicate Visible(t: string) {
    t != "" && t[0] as int > 32
  }

  // Formatted text, where `open` has the brackets that are open, the last one first. Outside
  // strings a brace and the comma of an object are followed by a line feed, a line feed by as
  // many tabs as there are open brackets, or one less and the closing brace, which stands
  // nowhere else; a colon is followed by one tab, the comma of an array by one space, and
  // there is no other blank.
  predicate Formatted(t: string, open: string)
    decreases |t|
  {
    if t == "" then open == ""
    else if t[0] == '\"' then Formatted(Behind(t[1..]), open)
    else if t[0] == '{' then |t| > 1 && t[1] == '\n' && Formatted(t[1..], "{" + open)
    else if t[0] == '[' then Formatted(t[1..], "[" + open)
    else if t[0] == ']' then open != "" && open[0] == '[' && Formatted(t[1..], open[1..])
    else if t[0] == '\n' then open != "" && open[0] == '{' && LineFormatted(t, open)
    else if t[0] == ',' then
      open != "" && |t| > 1 &&
      if open[0] == '{' then t[1] == '\n' && Formatted(t[1..], open)
      else t[1] == ' ' && Visible(t[2..]) && Formatted(t[2..], open)
    else if t[0] == ':' then
      open != "" && open[0] == '{' && |t| > 1 && t[1] == '\t' && Visible(t[2..]) && Formatted(t[2..], open)
    else t[0] as int > 32 && t[0] != '}' && Formatted(t[1..], open)
  }

  predicate LineFormatted(t: string, open: string)
    requires t != "" && open != ""
    decreases |t|, 0
  {
    var tabs := TabCount(t[1..]);
    var u := t[1 + tabs..];
    u != "" &&
    if u[0] == '}' then tabs == |open| - 1 && Formatted(u[1..], open[1..])
    else tabs == |open| && Visible(u) && Formatted(u, open)
  }

  // No blank outside strings.
  predicate Unspaced(t: string)
    decreases |t|
  {
    if t == "" then true
    else if t[0] == '\"' then Unspaced(Behind(t[1..]))
    else t[0] as int > 32 && Unspaced(t[1..])
  }

  // ---- Steps ----

  // Nothing the scanners care about.
  predicate Plain(p: string) {
    forall i | 0 <= i < |p| :: p[i] as int > 32 && p[i] !in "\"{}[],:"
  }

  lemma {:induction false} PlainFormatted(p: string, rest: string, open: string)
    requires Plain(p)
    ensures Formatted(p + rest, open) <==> Formatted(rest, open)
    ensures Unspaced(p + rest) <==> Unspaced(rest)
  {
    if p == "" {
      assert p + rest == rest;
    } else {
      assert (p + rest)[1..] == p[1..] + rest;
      assert p[0] !in "\"{}[],:";
      PlainFormatted(p[1..], rest, open);
    }
  }

  lemma {:induction false} BehindBody(body: string, rest: string)
    requires Closed(body)
    ensures Behind(body + ([QUOTE] + rest)) == rest
    decreases |body|
  {
    var w := body + ([QUOTE] + rest);
    if body == "" {
      assert w == [QUOTE] + rest;
    } else {
      var k := if body[0] == BACKSLASH then 2 else 1;
      assert w[k..] == body[k..] + ([QUOTE] + rest);
      BehindBody(body[k..], rest);
    }
  }

  lemma QuoteFormatted(s: string, rest: string, open: string)
    ensures Formatted(Quote(s) + rest, open) <==> Formatted(rest, open)
    ensures Unspaced(Quote(s) + rest) <==> Unspaced(rest)
    ensures Visible(Quote(s) + rest)
  {
    EscapeTextIsClosed(s);
    var body := EscapeText(s);
    var w := Quote(s) + rest;
    assert w[1..] == body + ([QUOTE] + rest);
    BehindBody(body, rest);
  }

  lemma {:induction false} TabsCounted(n: nat, u: string)
    requires u != "" && u[0] != '\t'
    ensures TabCount(Tabs(n) + u) == n && (Tabs(n) + u)[n..] == u
  {
    if n == 0 {
      assert Tabs(0) + u == u;
    } else {
      assert (Tabs(n) + u)[1..] == Tabs(n - 1) + u;
      TabsCounted(n - 1, u);
    }
  }

  lemma NumeralIsPlain(n: Numeral)
    requires WellFormed(n)
    ensures Plain(NumeralText(n)) && NumeralText(n) != ""
  {
    hide NumeralText, WellFormed;
    NumeralIsNumberChars(n);
    NumeralFirst(n);
  }

  lemma RenderIsVisible(v: Json, format: bool, depth: nat)
    ensures Visible(Render(v, format, depth))
  {
    hide NumeralText, RenderItems, RenderMembers, EscapeText;
    if v.Number? {
      NumeralIsPlain(PrintedNumeral(v.num));
    }
  }

  // ---- Formatted output ----

  lemma {:induction false} ValueFormatted(v: Json, open: string, rest: string)
    ensures Formatted(Render(v, true, |open|) + rest, open) <==> Formatted(rest, open)
    decreases v, 1
  {
    hide NumeralText, RenderItems, RenderMembers, EscapeText, Tabs;
    match v
    case Null =>
      PlainFormatted("null", rest, open);
    case False =>
      PlainFormatted("false", rest, open);
    case True =>
      PlainFormatted("true", rest, open);
    case Number(num) =>
      NumeralIsPlain(PrintedNumeral(num));
      PlainFormatted(NumeralText(PrintedNumeral(num)), rest, open);
    case String(text) =>
      QuoteFormatted(text, rest, open);
    case Array(items) =>
      ArrayFormatted(items, open, rest);
    case Object(members) =>
      ObjectFormatted(members, open, rest);
  }

  lemma {:induction false} ArrayFormatted(items: seq<Json>, open: string, rest: string)
    ensures Formatted(Render(Array(items), true, |open|) + rest, open) <==> Formatted(rest, open)
    decreases items, 2
  {
    hide RenderItems;
    var inner := "[" + open;
    var text := RenderItems(items, true, |inner|);
    var w := Render(Array(items), true, |open|) + rest;
    assert w == "[" + (text + ("]" + rest)) && w[1..] == text + ("]" + rest);
    ItemsFormatted(items, inner, "]" + rest);
    assert inner[0] == '[' && inner[1..] == open && ("]" + rest)[1..] == rest;
  }

  lemma {:induction false} ItemsFormatted(items: seq<Json>, open: string, rest: string)
    requires open != "" && open[0] == '['
    ensures Formatted(RenderItems(items, true, |open|) + rest, open) <==> Formatted(rest, open)
    decreases items, 1
  {
    hide Render;
    if items == [] {
      assert "" + rest == rest;
    } else {
      var more := items[1..];
      var tail := RenderItems(more, true, |open|) + rest;
      var sep := Separator(|items| > 1, true);
      assert RenderItems(items, true, |open|) + rest == Render(items[0], true, |open|) + (sep + tail);
      ValueFormatted(items[0], open, sep + tail);
      ItemsFormatted(more, open, rest);
      if |items| > 1 {
        RenderIsVisible(more[0], true, |open|);
        assert sep + tail == ", " + tail && (sep + tail)[2..] == tail;
        ItemsStart(more, |open|, rest);
      } else {
        assert sep + tail == tail;
      }
    }
  }

  lemma ItemsStart(items: seq<Json>, depth: nat, rest: string)
    requires items != []
    ensures Visible(RenderItems(items, true, depth) + rest)
  {
    hide Render;
    RenderIsVisible(items[0], true, depth);
  }

  lemma {:induction false} ObjectFormatted(members: seq<Member>, open: string, rest: string)
    ensures Formatted(Render(Object(members), true, |open|) + rest, open) <==> Formatted(rest, open)
    decreases members, 2
  {
    hide RenderMembers, Tabs, LineFormatted;
    var inner := "{" + open;
    var text := RenderMembers(members, true, |inner|);
    var lines := "\n" + (text + (Tabs(|open|) + ("}" + rest)));
    var w := Render(Object(members), true, |open|) + rest;
    assert w == "{" + lines && w[1..] == lines;
    MembersFormatted(members, inner, rest);
    assert inner[1..] == open;
  }

  // From the line feed in front of the members.
  lemma {:induction false} MembersFormatted(members: seq<Member>, open: string, rest: string)
    requires open != "" && open[0] == '{'
    ensures var lines := "\n" + (RenderMembers(members, true, |open|) + (Tabs(|open| - 1) + ("}" + rest)));
            Formatted(lines, open) <==> Formatted(rest, open[1..])
    decreases members, 1
  {
    hide Render, Tabs, Quote, Formatted;
    if members == [] {
      LastLine(open, rest);
    } else {
      var m, more := members[0], members[1..];
      var end := Tabs(|open| - 1) + ("}" + rest);
      var next := "\n" + (RenderMembers(more, true, |open|) + end);
      var tail := (if |members| > 1 then "," else "") + next;
      MembersFormatted(more, open, rest);
      MemberTail(|members| > 1, next, open);
      ValueFormatted(m.value, open, tail);
      RenderIsVisible(m.value, true, |open|);
      MemberLine(m.key, Render(m.value, true, |open|) + tail, open);
      MembersSplit(members, |open|, end);
    }
  }

  lemma LastLine(open: string, rest: string)
    requires open != "" && open[0] == '{'
    ensures RenderMembers([], true, |open|) + (Tabs(|open| - 1) + ("}" + rest)) == Tabs(|open| - 1) + ("}" + rest)
    ensures Formatted("\n" + (Tabs(|open| - 1) + ("}" + rest)), open) <==> Formatted(rest, open[1..])
  {
    hide Tabs;
    var n := |open| - 1;
    var t := "\n" + (Tabs(n) + ("}" + rest));
    TabsCounted(n, "}" + rest);
    assert t[1..] == Tabs(n) + ("}" + rest);
    assert t[1 + n..] == "}" + rest && ("}" + rest)[1..] == rest;
    assert "" + (Tabs(n) + ("}" + rest)) == Tabs(n) + ("}" + rest);
  }

  lemma MemberTail(more: bool, next: string, open: string)
    requires open != "" && open[0] == '{' && next != "" && next[0] == '\n'
    ensures Formatted((if more then "," else "") + next, open) <==> Formatted(next, open)
  {
    hide LineFormatted;
    if more {
      assert ("," + next)[1..] == next;
    } else {
      assert "" + next == next;
    }
  }

  lemma MemberLine(key: string, value: string, open: string)
    requires open != "" && open[0] == '{' && Visible(value)
    ensures Formatted("\n" + (Tabs(|open|) + (Quote(key) + (":\t" + value))), open) <==> Formatted(value, open)
  {
    hide Tabs, Quote;
    var colon := ":\t" + value;
    var u := Quote(key) + colon;
    QuoteFormatted(key, colon, open);
    QuoteStart(key, colon);
    var t := "\n" + (Tabs(|open|) + u);
    TabsCounted(|open|, u);
    assert t[1..] == Tabs(|open|) + u && t[1 + |open|..] == u;
    assert colon[2..] == value;
  }

  lemma QuoteStart(key: string, rest: string)
    ensures Quote(key) + rest != "" && (Quote(key) + rest)[0] == '\"'
  {
  }

  lemma MembersSplit(members: seq<Member>, depth: nat, end: string)
    requires members != []
    ensures var m, more := members[0], members[1..];
            var next := "\n" + (RenderMembers(more, true, depth) + end);
            var tail := (if |members| > 1 then "," else "") + next;
            RenderMembers(members, true, depth) + end
            == Tabs(depth) + (Quote(m.key) + (":\t" + (Render(m.value, true, depth) + tail)))
  {
    hide Render, Tabs, Quote;
    var m, more := members[0], members[1..];
    var comma := if |members| > 1 then "," else "";
    assert RenderKey(m.key, true, depth) == Tabs(depth) + Quote(m.key) + ":\t";
    assert MemberEnd(|members| > 1, true) == comma + "\n";
    Regroup(Tabs(depth) + Quote(m.key) + ":\t", Render(m.value, true, depth), comma + "\n",
            RenderMembers(more, true, depth), end);
    var behind := Render(m.value, true, depth) + (comma + "\n" + (RenderMembers(more, true, depth) + end));
    Assoc(Tabs(depth) + Quote(m.key), ":\t", behind);
    Assoc(Tabs(depth), Quote(m.key), ":\t" + behind);
    Assoc(comma, "\n", RenderMembers(more, true, depth) + end);
  }

  lemma Assoc(a: string, b: string, c: string)
    ensures (a + b) + c == a + (b + c)
  {
  }

  lemma Regroup(a: string, b: string, c: string, d: string, e: string)
    ensures a + b + c + d + e == a + (b + (c + (d + e)))
  {
    Assoc(a + b + c, d, e);
    Assoc(a + b, c, d + e);
    Assoc(a, b, c + (d + e));
  }

  // The formatted print of every value.
  lemma PrintedIsFormatted(v: Json)
    ensures Formatted(Render(v, true, 0), "")
  {
    hide Render, Formatted;
    ValueFormatted(v, "", "");
    assert Render(v, true, 0) + "" == Render(v, true, 0);
    NothingFormatted();
  }

  lemma NothingFormatted()
    ensures Formatted("", "") && Unspaced("")
  {
  }

  // ---- Unformatted output ----

  // A punctuation mark.
  lemma MarkUnspaced(c: char, rest: string)
    requires c as int > 32 && c != '\"'
    ensures Unspaced([c] + rest) <==> Unspaced(rest)
  {
    assert ([c] + rest)[1..] == rest;
  }

  lemma {:induction false} ValueUnspaced(v: Json, depth: nat, rest: string)
    ensures Unspaced(Render(v, false, depth) + rest) <==> Unspaced(rest)
    decreases v, 1
  {
    hide NumeralText, RenderItems, RenderMembers, EscapeText, Tabs, Unspaced;
    match v
    case Null =>
      PlainFormatted("null", rest, "");
    case False =>
      PlainFormatted("false", rest, "");
    case True =>
      PlainFormatted("true", rest, "");
    case Number(num) =>
      NumeralIsPlain(PrintedNumeral(num));
      PlainFormatted(NumeralText(PrintedNumeral(num)), rest, "");
    case String(text) =>
      QuoteFormatted(text, rest, "");
    case Array(items) =>
      var text := RenderItems(items, false, depth + 1);
      assert Render(v, false, depth) + rest == "[" + (text + ("]" + rest));
      MarkUnspaced('[', text + ("]" + rest));
      ItemsUnspaced(items, depth + 1, "]" + rest);
      MarkUnspaced(']', rest);
    case Object(members) =>
      var text := RenderMembers(members, false, depth + 1);
      assert Render(v, false, depth) + rest == "{" + (text + ("}" + rest));
      MarkUnspaced('{', text + ("}" + rest));
      MembersUnspaced(members, depth + 1, "}" + rest);
      MarkUnspaced('}', rest);
  }

  lemma {:induction false} ItemsUnspaced(items: seq<Json>, depth: nat, rest: string)
    ensures Unspaced(RenderItems(items, false, depth) + rest) <==> Unspaced(rest)
    decreases items, 0
  {
    hide Render, Unspaced;
    if items == [] {
      assert "" + rest == rest;
    } else {
      var tail := RenderItems(items[1..], false, depth) + rest;
      var sep := Separator(|items| > 1, false);
      assert RenderItems(items, false, depth) + rest == Render(items[0], false, depth) + (sep + tail);
      ValueUnspaced(items[0], depth, sep + tail);
      CommaUnspaced(sep, tail);
      ItemsUnspaced(items[1..], depth, rest);
    }
  }

  lemma CommaUnspaced(comma: string, rest: string)
    requires comma == "" || comma == ","
    ensures Unspaced(comma + rest) <==> Unspaced(rest)
  {
    hide Unspaced;
    if comma == "" {
      assert "" + rest == rest;
    } else {
      MarkUnspaced(',', rest);
    }
  }

  lemma {:induction false} MembersUnspaced(members: seq<Member>, depth: nat, rest: string)
    ensures Unspaced(RenderMembers(members, false, depth) + rest) <==> Unspaced(rest)
    decreases members, 0
  {
    hide Render, Unspaced, Tabs, Quote;
    if members == [] {
      assert "" + rest == rest;
    } else {
      var m := members[0];
      var tail := RenderMembers(members[1..], false, depth) + rest;
      var comma := MemberEnd(|members| > 1, false);
      var value := Render(m.value, false, depth) + (comma + tail);
      assert RenderKey(m.key, false, depth) == Quote(m.key) + ":";
      assert comma == if |members| > 1 then "," else "";
      Regroup(Quote(m.key) + ":", Render(m.value, false, depth), comma,
              RenderMembers(members[1..], false, depth), rest);
      Assoc(Quote(m.key), ":", value);
      QuoteFormatted(m.key, ":" + value, "");
      MarkUnspaced(':', value);
      ValueUnspaced(m.value, depth, comma + tail);
      CommaUnspaced(comma, tail);
      MembersUnspaced(members[1..], depth, rest);
    }
  }

  // The unformatted print of every value.
  lemma PrintedIsUnspaced(v: Json)
    ensures Unspaced(Render(v, false, 0))
  {
    hide Render, Unspaced;
    ValueUnspaced(v, 0, "");
    assert Render(v, false, 0) + "" == Render(v, false, 0);
    NothingFormatted();
  }

  // ---- Nesting ----

  // The most brackets that are open at once outside strings, `open` of them to begin with.
  function Deepest(t: string, open: int): int
    decreases |t|
  {
    if t == "" then open
    else if t[0] == '\"' then Deepest(Behind(t[1..]), open)
    else if t[0] == '[' || t[0] == '{' then Deepest(t[1..], open + 1)
    else if t[0] == ']' || t[0] == '}' then Larger(open, Deepest(t[1..], open - 1))
    else Deepest(t[1..], open)
  }

  function Larger(a: int, b: int): int {
    if a >= b then a else b
  }

  lemma {:induction false} AtLeastOpen(t: string, open: int)
    ensures Deepest(t, open) >= open
    decreases |t|
  {
    if t == "" {
    } else if t[0] == '\"' {
      AtLeastOpen(Behind(t[1..]), open);
    } else if t[0] == '[' || t[0] == '{' {
      AtLeastOpen(t[1..], open + 1);
    } else if t[0] != ']' && t[0] != '}' {
      AtLeastOpen(t[1..], open);
    }
  }

  // No bracket and no quote.
  predicate Flat(p: string) {
    forall i | 0 <= i < |p| :: p[i] !in "\"{}[]"
  }

  lemma {:induction false} FlatDeepest(p: string, rest: string, open: int)
    requires Flat(p)
    ensures Deepest(p + rest, open) == Deepest(rest, open)
  {
    if p == "" {
      assert p + rest == rest;
    } else {
      assert (p + rest)[1..] == p[1..] + rest;
      assert p[0] !in "\"{}[]";
      FlatDeepest(p[1..], rest, open);
    }
  }

  lemma BlankIsFlat(s: string)
    requires AllBlank(s)
    ensures Flat(s)
  {
  }

  lemma StringDeepest(body: string, rest: string, open: int)
    requires Closed(body)
    ensures Deepest([QUOTE] + (body + [QUOTE] + rest), open) == Deepest(rest, open)
  {
    var w := [QUOTE] + (body + [QUOTE] + rest);
    assert w[1..] == body + ([QUOTE] + rest);
    BehindBody(body, rest);
  }

  // The brackets open at once in the text of a tree are its depth.
  lemma {:induction false} LayoutDeepest(c: Cst, rest: string, open: int)
    requires Accepted(c)
    ensures Deepest(Layout(c, rest), open) == Larger(open + Depth(c), Deepest(rest, open))
    decreases c, 1
  {
    hide NumeralText, WellFormed, LayoutElements, LayoutEntries, AcceptedElements, AcceptedEntries, ElementsDepth,
         EntriesDepth, Decode, Closed, Deepest;
    AtLeastOpen(rest, open);
    match c
    case LNull =>
      FlatDeepest("null", rest, open);
    case LFalse =>
      FlatDeepest("false", rest, open);
    case LTrue =>
      FlatDeepest("true", rest, open);
    case Quoted(body) =>
      StringDeepest(body, rest, open);
    case Written(n) =>
      NumeralIsFlat(n);
      FlatDeepest(NumeralText(n), rest, open);
    case Bracketed(blank, es) =>
      var inside := if es == [] then blank + ("]" + rest) else LayoutElements(es, "]" + rest);
      OpenDeepest('[', inside, open);
      CloseDeepest(']', rest, open + 1);
      if es == [] {
        BlankIsFlat(blank);
        FlatDeepest(blank, "]" + rest, open + 1);
        NoDepth();
      } else {
        ElementsDeepest(es, "]" + rest, open + 1);
      }
    case Braced(blank, es) =>
      var inside := if es == [] then blank + ("}" + rest) else LayoutEntries(es, "}" + rest);
      OpenDeepest('{', inside, open);
      CloseDeepest('}', rest, open + 1);
      if es == [] {
        BlankIsFlat(blank);
        FlatDeepest(blank, "}" + rest, open + 1);
        NoDepth();
      } else {
        EntriesDeepest(es, "}" + rest, open + 1);
      }
  }

  lemma NoDepth()
    ensures ElementsDepth([]) == 0 && EntriesDepth([]) == 0
  {
  }

  lemma NumeralIsFlat(n: Numeral)
    requires GoodNumeral(n)
    ensures Flat(NumeralText(n))
  {
    hide NumeralText;
    NumeralIsNumberChars(n);
  }

  lemma OpenDeepest(c: char, rest: string, open: int)
    requires c == '[' || c == '{'
    ensures Deepest([c] + rest, open) == Deepest(rest, open + 1)
  {
    assert ([c] + rest)[1..] == rest;
  }

  lemma CloseDeepest(c: char, rest: string, open: int)
    requires c == ']' || c == '}'
    ensures Deepest([c] + rest, open) == Larger(open, Deepest(rest, open - 1))
  {
    assert ([c] + rest)[1..] == rest;
  }

  lemma {:induction false} ElementsDeepest(es: seq<Element>, rest: string, open: int)
    requires es != [] && AcceptedElements(es)
    ensures Deepest(LayoutElements(es, rest), open) == Larger(open + ElementsDepth(es), Deepest(rest, open))
    decreases es, 0
  {
    hide Accepted, Layout, Depth, Deepest;
    var e, more := es[0], es[1..];
    var tail := if |es| == 1 then rest else "," + LayoutElements(more, rest);
    BlankIsFlat(e.before);
    BlankIsFlat(e.after);
    FlatDeepest(e.before, Layout(e.value, e.after + tail), open);
    LayoutDeepest(e.value, e.after + tail, open);
    FlatDeepest(e.after, tail, open);
    if |es| > 1 {
      FlatDeepest(",", LayoutElements(more, rest), open);
      ElementsDeepest(more, rest, open);
    } else {
      assert more == [];
      NoDepth();
      AtLeastOpen(rest, open);
    }
  }

  lemma {:induction false} EntriesDeepest(es: seq<Entry>, rest: string, open: int)
    requires es != [] && AcceptedEntries(es)
    ensures Deepest(LayoutEntries(es, rest), open) == Larger(open + EntriesDepth(es), Deepest(rest, open))
    decreases es, 0
  {
    hide Accepted, Layout, Depth, Deepest, Closed, Decode;
    var e, more := es[0], es[1..];
    var tail := if |es| == 1 then rest else "," + LayoutEntries(more, rest);
    var value := e.lead + Layout(e.value, e.after + tail);
    KeyDeepest(e, value, open);
    BlankIsFlat(e.lead);
    BlankIsFlat(e.after);
    FlatDeepest(e.lead, Layout(e.value, e.after + tail), open);
    LayoutDeepest(e.value, e.after + tail, open);
    FlatDeepest(e.after, tail, open);
    if |es| > 1 {
      FlatDeepest(",", LayoutEntries(more, rest), open);
      EntriesDeepest(more, rest, open);
    } else {
      assert more == [];
      NoDepth();
      AtLeastOpen(rest, open);
    }
  }

  lemma KeyDeepest(e: Entry, value: string, open: int)
    requires AllBlank(e.before) && AllBlank(e.gap) && Closed(e.key)
    ensures Deepest(e.before + ([QUOTE] + (e.key + [QUOTE] + (e.gap + (":" + value)))), open) == Deepest(value, open)
  {
    hide Deepest, Closed;
    BlankIsFlat(e.before);
    BlankIsFlat(e.gap);
    FlatDeepest(e.before, [QUOTE] + (e.key + [QUOTE] + (e.gap + (":" + value))), open);
    StringDeepest(e.key, e.gap + (":" + value), open);
    FlatDeepest(e.gap, ":" + value, open);
    FlatDeepest(":", value, open);
  }

  // The depth the parser limits is that of the brackets in the text.
  lemma DepthIsBrackets(c: Cst)
    requires Accepted(c)
    ensures Depth(c) == Deepest(Layout(c, ""), 0)
  {
    hide Depth, Layout, Accepted;
    LayoutDeepest(c, "", 0);
  }
}
