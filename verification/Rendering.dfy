/**
 The recursive rendering a print must leave in its buffer, and the round trip through
 the parser.
 */
module Rendering {
  import opened CText
  import opened StringLiteral
  import opened Numbers
  import opened JsonValue
  import opened Grammar
  import opened ParserTheorems
  import opened Document

  function Tabs(n: nat): (t: string)
    ensures |t| == n && NUL !in t && AllBlank(t)
  {
    seq(n, _ => '\t')
  }

  // `text` in formatted output, nothing otherwise.
  function Fmt(format: bool, text: string): string {
    if format then text else ""
  }

  function Render(v: Json, format: bool, depth: nat): string
    decreases v, 0
  {
    match v
    case Null => "null"
    case False => "false"
    case True => "true"
    case Number(num) => NumeralText(PrintedNumeral(num))
    case String(text) => Quote(text)
    case Array(items) => "[" + RenderItems(items, format, depth + 1) + "]"
    case Object(members) =>
      ("{" + Fmt(format, "\n")) + RenderMembers(members, format, depth + 1) + (Fmt(format, Tabs(depth)) + "}")
  }

  function RenderItems(items: seq<Json>, format: bool, depth: nat): string
    decreases items
  {
    if items == [] then ""
    else Render(items[0], format, depth) + Separator(|items| > 1, format) + RenderItems(items[1..], format, depth)
  }

  function Separator(more: bool, format: bool): string {
    if more then "," + Fmt(format, " ") else ""
  }

  function RenderMembers(members: seq<Member>, format: bool, depth: nat): string
    decreases members
  {
    if members == [] then ""
    else
      RenderKey(members[0].key, format, depth) + Render(members[0].value, format, depth)
      + MemberEnd(|members| > 1, format) + RenderMembers(members[1..], format, depth)
  }

  // The tabs, the key and the colon in front of a member's value.
  function RenderKey(key: string, format: bool, depth: nat): string {
    Fmt(format, Tabs(depth)) + Quote(key) + (":" + Fmt(format, "\t"))
  }

  function MemberEnd(more: bool, format: bool): string {
    (if more then "," else "") + Fmt(format, "\n")
  }

  // ---- The syntax tree of a rendering ----

  function SyntaxOf(v: Json, format: bool, depth: nat): Cst
    decreases v, 0
  {
    match v
    case Null => LNull
    case False => LFalse
    case True => LTrue
    case Number(num) => Written(PrintedNumeral(num))
    case String(text) => Quoted(EscapeText(text))
    case Array(items) => Bracketed("", ElementsOf(items, format, depth + 1, ""))
    case Object(members) =>
      Braced(if members == [] then Fmt(format, "\n" + Tabs(depth)) else "", EntriesOf(members, format, depth + 1))
  }

  function ElementsOf(items: seq<Json>, format: bool, depth: nat, before: string): (es: seq<Element>)
    ensures |es| == |items|
    decreases items
  {
    if items == [] then []
    else
      [Element(before, SyntaxOf(items[0], format, depth), "")]
      + ElementsOf(items[1..], format, depth, Fmt(format, " "))
  }

  function EntryOf(m: Member, last: bool, format: bool, depth: nat): Entry
    requires depth > 0
    decreases m, 1
  {
    Entry(Fmt(format, "\n" + Tabs(depth)), EscapeText(m.key), "", Fmt(format, "\t"), SyntaxOf(m.value, format, depth),
          if last then Fmt(format, "\n" + Tabs(depth - 1)) else "")
  }

  function EntriesOf(members: seq<Member>, format: bool, depth: nat): (es: seq<Entry>)
    requires depth > 0
    ensures |es| == |members|
    decreases members
  {
    if members == [] then []
    else [EntryOf(members[0], |members| == 1, format, depth)] + EntriesOf(members[1..], format, depth)
  }

  lemma {:induction false} RenderIsLayout(v: Json, format: bool, depth: nat, rest: string)
    ensures Layout(SyntaxOf(v, format, depth), rest) == Render(v, format, depth) + rest
    decreases v, 1
  {
    match v
    case String(text) =>
      var e := EscapeText(text);
      assert [QUOTE] + (e + [QUOTE] + rest) == Quote(text) + rest;
    case Array(items) =>
      ArrayIsLayout(items, format, depth, rest);
    case Object(members) =>
      ObjectIsLayout(members, format, depth, rest);
    case _ =>
  }

  lemma {:induction false} ArrayIsLayout(items: seq<Json>, format: bool, depth: nat, rest: string)
    ensures Layout(SyntaxOf(Array(items), format, depth), rest) == Render(Array(items), format, depth) + rest
    decreases items, 2
  {
    hide RenderItems, ElementsOf, LayoutElements;
    var inner := RenderItems(items, format, depth + 1);
    if items == [] {
      assert inner == "" by { EmptyItems(format, depth + 1); }
      assert "[" + ("" + ("]" + rest)) == "[" + "" + "]" + rest;
    } else {
      ItemsAreLayout(items, format, depth + 1, "", "]" + rest);
      assert "[" + ("" + (inner + ("]" + rest))) == "[" + inner + "]" + rest;
    }
  }

  lemma EmptyItems(format: bool, depth: nat)
    ensures RenderItems([], format, depth) == ""
  {
  }

  lemma ItemsUnfold(items: seq<Json>, format: bool, depth: nat, before: string)
    requires items != []
    ensures RenderItems(items, format, depth)
            == Render(items[0], format, depth) + Separator(|items| > 1, format) + RenderItems(items[1..], format, depth)
    ensures ElementsOf(items, format, depth, before)
            == [Element(before, SyntaxOf(items[0], format, depth), "")]
               + ElementsOf(items[1..], format, depth, Fmt(format, " "))
  {
    hide Render, SyntaxOf, Separator, Fmt;
  }

  lemma {:induction false} ItemsAreLayout(items: seq<Json>, format: bool, depth: nat, before: string, rest: string)
    requires items != []
    ensures LayoutElements(ElementsOf(items, format, depth, before), rest)
            == before + (RenderItems(items, format, depth) + rest)
    decreases items, 0
  {
    hide Layout, SyntaxOf, Render, LayoutElements, RenderItems, ElementsOf, Separator, Fmt;
    ItemsUnfold(items, format, depth, before);
    var e := Element(before, SyntaxOf(items[0], format, depth), "");
    var es := ElementsOf(items[1..], format, depth, Fmt(format, " "));
    LayoutElementsCons(e, es, rest);
    var first := Render(items[0], format, depth);
    var more := RenderItems(items[1..], format, depth);
    var tail := if es == [] then rest else "," + LayoutElements(es, rest);
    RenderIsLayout(items[0], format, depth, "" + tail);
    assert "" + tail == tail;
    var sep := Separator(|items| > 1, format);
    if es == [] {
      EmptyItems(format, depth);
      SeparatorJoins(format, "", rest);
    } else {
      ItemsAreLayout(items[1..], format, depth, Fmt(format, " "), rest);
      SeparatorJoins(format, more, rest);
    }
    Regroup(first, sep, more, rest);
  }

  lemma SeparatorJoins(format: bool, more: string, rest: string)
    ensures Separator(false, format) + ("" + rest) == rest
    ensures "," + (Fmt(format, " ") + (more + rest)) == Separator(true, format) + (more + rest)
  {
  }

  lemma Regroup(a: string, b: string, c: string, d: string)
    ensures a + (b + (c + d)) == (a + b + c) + d
  {
  }

  lemma {:induction false} ObjectIsLayout(members: seq<Member>, format: bool, depth: nat, rest: string)
    ensures Layout(SyntaxOf(Object(members), format, depth), rest) == Render(Object(members), format, depth) + rest
    decreases members, 2
  {
    hide RenderMembers, EntriesOf, LayoutEntries;
    var nl := Fmt(format, "\n");
    var inner := RenderMembers(members, format, depth + 1);
    var close := Fmt(format, Tabs(depth)) + "}";
    assert ("{" + nl) + inner + close + rest == "{" + (nl + (inner + (close + rest)));
    if members == [] {
      assert inner == "" by { EmptyMembers(format, depth + 1); }
      assert Fmt(format, "\n" + Tabs(depth)) + ("}" + rest) == nl + ("" + (close + rest));
    } else {
      MembersAreLayout(members, format, depth + 1, rest);
    }
  }

  lemma EmptyMembers(format: bool, depth: nat)
    ensures RenderMembers([], format, depth) == ""
  {
  }

  lemma MembersUnfold(members: seq<Member>, format: bool, depth: nat)
    requires members != [] && depth > 0
    ensures RenderMembers(members, format, depth)
            == RenderKey(members[0].key, format, depth) + Render(members[0].value, format, depth)
               + MemberEnd(|members| > 1, format) + RenderMembers(members[1..], format, depth)
    ensures EntriesOf(members, format, depth)
            == [EntryOf(members[0], |members| == 1, format, depth)] + EntriesOf(members[1..], format, depth)
  {
    hide Render, RenderKey, EntryOf, MemberEnd;
  }

  lemma {:induction false} MembersAreLayout(members: seq<Member>, format: bool, depth: nat, rest: string)
    requires members != [] && depth > 0
    ensures LayoutEntries(EntriesOf(members, format, depth), "}" + rest)
            == Fmt(format, "\n") + (RenderMembers(members, format, depth) + (Fmt(format, Tabs(depth - 1)) + "}" + rest))
    decreases members, 0
  {
    hide Layout, SyntaxOf, Render, RenderKey, LayoutEntries, LayoutEntry, EntryOf, RenderMembers, EntriesOf;
    MembersUnfold(members, format, depth);
    var e := EntryOf(members[0], |members| == 1, format, depth);
    var es := EntriesOf(members[1..], format, depth);
    LayoutEntriesCons(e, es, "}" + rest);
    var close := Fmt(format, Tabs(depth - 1)) + "}" + rest;
    var end := MemberEnd(|members| > 1, format);
    var more := RenderMembers(members[1..], format, depth);
    var tail := if es == [] then "}" + rest else "," + LayoutEntries(es, "}" + rest);
    EntryIsLayout(members[0], |members| == 1, format, depth, tail);
    var after := if |members| == 1 then Fmt(format, "\n" + Tabs(depth - 1)) else "";
    if es == [] {
      EmptyMembers(format, depth);
      assert after + tail == end + (more + close);
    } else {
      MembersAreLayout(members[1..], format, depth, rest);
      assert after + ("," + (Fmt(format, "\n") + (more + close))) == end + (more + close);
    }
    var value := Render(members[0].value, format, depth);
    var k := RenderKey(members[0].key, format, depth);
    Regroup(k + value, end, more, close);
    assert k + (value + (end + (more + close))) == (k + value) + (end + (more + close));
  }

  lemma EntryIsLayout(m: Member, last: bool, format: bool, depth: nat, tail: string)
    requires depth > 0
    ensures LayoutEntry(EntryOf(m, last, format, depth), tail)
            == Fmt(format, "\n") + (RenderKey(m.key, format, depth) + (Render(m.value, format, depth)
               + ((if last then Fmt(format, "\n" + Tabs(depth - 1)) else "") + tail)))
    decreases m, 1
  {
    hide Render, SyntaxOf, Layout;
    var after := (if last then Fmt(format, "\n" + Tabs(depth - 1)) else "") + tail;
    RenderIsLayout(m.value, format, depth, after);
    KeyIsLayout(m.key, format, depth, Render(m.value, format, depth) + after);
  }

  lemma KeyIsLayout(key: string, format: bool, depth: nat, tail: string)
    ensures Fmt(format, "\n" + Tabs(depth))
            + ([QUOTE] + (EscapeText(key) + [QUOTE] + ("" + (":" + (Fmt(format, "\t") + tail)))))
            == Fmt(format, "\n") + (RenderKey(key, format, depth) + tail)
  {
    hide EscapeText;
    var colon := ":" + Fmt(format, "\t");
    assert "" + (":" + (Fmt(format, "\t") + tail)) == colon + tail;
    assert [QUOTE] + (EscapeText(key) + [QUOTE] + (colon + tail)) == Quote(key) + (colon + tail);
    assert Fmt(format, Tabs(depth)) + (Quote(key) + (colon + tail)) == RenderKey(key, format, depth) + tail;
    assert Fmt(format, "\n" + Tabs(depth)) == Fmt(format, "\n") + Fmt(format, Tabs(depth));
  }

  // ---- The value a print is read back as ----

  // Every number becomes what its printed numeral says.
  function Reread(v: Json): Json {
    match v
    case Number(num) => Number(DoubleOf(PrintedNumeral(num)))
    case Array(items) => Array(RereadItems(items))
    case Object(members) => Object(RereadMembers(members))
    case _ => v
  }

  function RereadItems(items: seq<Json>): seq<Json> {
    if items == [] then [] else [Reread(items[0])] + RereadItems(items[1..])
  }

  function RereadMembers(members: seq<Member>): seq<Member> {
    if members == [] then []
    else [Member(members[0].key, Reread(members[0].value))] + RereadMembers(members[1..])
  }

  lemma {:induction false} RereadExactly(v: Json)
    ensures Reread(v) == v <==> NumbersReadBack(v)
    decreases v, 1
  {
    hide PrintedNumeral, DoubleOf;
    match v
    case Array(items) =>
      ItemsRereadExactly(items);
    case Object(members) =>
      MembersRereadExactly(members);
    case _ =>
  }

  lemma {:induction false} ItemsRereadExactly(items: seq<Json>)
    ensures RereadItems(items) == items <==> forall i | 0 <= i < |items| :: NumbersReadBack(items[i])
    decreases items, 0
  {
    hide Reread, NumbersReadBack;
    if items != [] {
      RereadExactly(items[0]);
      ItemsRereadExactly(items[1..]);
      var r := RereadItems(items);
      assert r[0] == Reread(items[0]) && r[1..] == RereadItems(items[1..]);
      assert items == [items[0]] + items[1..];
      assert forall i | 0 < i < |items| :: items[i] == items[1..][i - 1];
    }
  }

  lemma {:induction false} MembersRereadExactly(members: seq<Member>)
    ensures RereadMembers(members) == members <==> forall i | 0 <= i < |members| :: NumbersReadBack(members[i].value)
    decreases members, 0
  {
    hide Reread, NumbersReadBack;
    if members != [] {
      RereadExactly(members[0].value);
      MembersRereadExactly(members[1..]);
      var r := RereadMembers(members);
      assert r[0] == Member(members[0].key, Reread(members[0].value)) && r[1..] == RereadMembers(members[1..]);
      assert members == [members[0]] + members[1..];
      assert forall i | 0 < i < |members| :: members[i] == members[1..][i - 1];
    }
  }

  // ---- The rendering is legal JSON, means the value, and nests as deep as the value ----

  lemma {:induction false} SyntaxMeans(v: Json, format: bool, depth: nat)
    requires CStrings(v)
    ensures var c := SyntaxOf(v, format, depth);
            Accepted(c) && Meaning(c) == Reread(v) && Depth(c) == Nesting(v)
    decreases v, 1
  {
    match v
    case Number(num) =>
      PrintedIsShort(num);
    case String(text) =>
      BodyMeans(text);
    case Array(items) =>
      ItemsMean(items, format, depth + 1, "");
    case Object(members) =>
      MembersMean(members, format, depth + 1);
    case _ =>
  }

  lemma BodyMeans(text: string)
    requires NUL !in text
    ensures GoodBody(EscapeText(text)) && BodyMeaning(EscapeText(text)) == text
  {
    EscapeTextIsClosed(text);
    DecodeUndoesEscape(text);
    CStringOfTerminated(text, "");
    CStringWhole(text);
  }

  lemma {:induction false} ItemsMean(items: seq<Json>, format: bool, depth: nat, before: string)
    requires (forall i | 0 <= i < |items| :: CStrings(items[i])) && AllBlank(before)
    ensures var es := ElementsOf(items, format, depth, before);
            && AcceptedElements(es) && ElementsMeaning(es) == RereadItems(items)
            && ElementsDepth(es) == ItemsNesting(items)
    decreases items, 0
  {
    hide SyntaxOf, Accepted, Meaning, Depth, AcceptedElements, Reread;
    if items == [] {
      NothingAccepted();
    } else {
      SyntaxMeans(items[0], format, depth);
      ItemsMean(items[1..], format, depth, Fmt(format, " "));
      var e := Element(before, SyntaxOf(items[0], format, depth), "");
      var es := ElementsOf(items[1..], format, depth, Fmt(format, " "));
      ElementsAcceptedCons(e, es);
      assert ([e] + es)[1..] == es;
      ElementsMeaningCons(e, es);
      assert items == [items[0]] + items[1..];
    }
  }

  lemma {:induction false} MembersMean(members: seq<Member>, format: bool, depth: nat)
    requires depth > 0 && forall i | 0 <= i < |members| :: NUL !in members[i].key && CStrings(members[i].value)
    ensures var es := EntriesOf(members, format, depth);
            && AcceptedEntries(es) && EntriesMeaning(es) == RereadMembers(members)
            && EntriesDepth(es) == MembersNesting(members)
    decreases members, 0
  {
    hide SyntaxOf, Accepted, Meaning, Depth, GoodBody, BodyMeaning, AcceptedEntries, Reread;
    if members == [] {
      NothingAccepted();
    } else {
      SyntaxMeans(members[0].value, format, depth);
      BodyMeans(members[0].key);
      MembersMean(members[1..], format, depth);
      var e := EntryOf(members[0], |members| == 1, format, depth);
      var es := EntriesOf(members[1..], format, depth);
      EntriesAcceptedCons(e, es);
      assert EntriesOf(members, format, depth) == [e] + es;
      assert ([e] + es)[1..] == es;
      EntriesMeaningCons(e, es);
      assert members == [members[0]] + members[1..];
    }
  }

  lemma {:induction false} EscapedIsRfc(s: string)
    ensures RfcBody(EscapeText(s))
  {
    var ps := PiecesOf(s);
    assert AllLegal(ps) && EscapeText(s) == PiecesText(ps);
  }

  lemma {:induction false} PiecesOf(s: string) returns (ps: seq<Piece>)
    ensures AllLegal(ps) && PiecesText(ps) == EscapeText(s)
  {
    if s == "" {
      ps := [];
    } else {
      var tail := PiecesOf(s[1..]);
      var c := s[0];
      var p := if c > 31 as char && c != QUOTE && c != BACKSLASH then Piece.Plain(c)
               else if |EscapeChar(c)| == 2 then Short(EscapeChar(c)[1])
               else Scalar(EscapeChar(c)[2..]);
      assert p.Text() == EscapeChar(c);
      ps := [p] + tail;
      assert ps[1..] == tail;
    }
  }

  // Whatever the tree, formatted or not, the printed text is JSON in the sense of RFC 8259.
  lemma {:induction false} PrintedIsRfc(v: Json, format: bool, depth: nat)
    ensures Rfc(SyntaxOf(v, format, depth))
    decreases v, 1
  {
    match v
    case String(text) =>
      EscapedIsRfc(text);
    case Array(items) =>
      ItemsAreRfc(items, format, depth + 1, "");
    case Object(members) =>
      MembersAreRfc(members, format, depth + 1);
    case _ =>
  }

  lemma {:induction false} ItemsAreRfc(items: seq<Json>, format: bool, depth: nat, before: string)
    requires AllBlank(before)
    ensures forall e <- ElementsOf(items, format, depth, before) ::
              AllBlank(e.before) && Rfc(e.value) && AllBlank(e.after)
    decreases items, 0
  {
    if items != [] {
      PrintedIsRfc(items[0], format, depth);
      ItemsAreRfc(items[1..], format, depth, Fmt(format, " "));
    }
  }

  lemma {:induction false} MembersAreRfc(members: seq<Member>, format: bool, depth: nat)
    requires depth > 0
    ensures forall e <- EntriesOf(members, format, depth) ::
              && AllBlank(e.before) && RfcBody(e.key) && AllBlank(e.gap)
              && AllBlank(e.lead) && Rfc(e.value) && AllBlank(e.after)
    decreases members, 0
  {
    if members != [] {
      PrintedIsRfc(members[0].value, format, depth);
      EscapedIsRfc(members[0].key);
      MembersAreRfc(members[1..], format, depth);
    }
  }

  lemma {:induction false} RenderHasNoNul(v: Json, format: bool, depth: nat)
    ensures NUL !in Render(v, format, depth)
    decreases v, 1
  {
    hide RenderItems, RenderMembers, EscapeText, NumeralText;
    match v
    case Number(num) =>
      var n := PrintedNumeral(num);
      NumeralIsNumberChars(n);
      assert forall c <- NumeralText(n) :: NumberChar(c);
    case String(text) =>
      EscapeTextHasNoNul(text);
    case Array(items) =>
      ItemsHaveNoNul(items, format, depth + 1);
    case Object(members) =>
      MembersHaveNoNul(members, format, depth + 1);
    case _ =>
  }

  lemma {:induction false} ItemsHaveNoNul(items: seq<Json>, format: bool, depth: nat)
    ensures NUL !in RenderItems(items, format, depth)
    decreases items, 0
  {
    hide Render;
    if items != [] {
      RenderHasNoNul(items[0], format, depth);
      ItemsHaveNoNul(items[1..], format, depth);
    }
  }

  lemma {:induction false} MembersHaveNoNul(members: seq<Member>, format: bool, depth: nat)
    ensures NUL !in RenderMembers(members, format, depth)
    decreases members, 0
  {
    hide Render, EscapeText;
    if members != [] {
      RenderHasNoNul(members[0].value, format, depth);
      EscapeTextHasNoNul(members[0].key);
      MembersHaveNoNul(members[1..], format, depth);
    }
  }

  // ---- Round trip ----

  // A print is parsed exactly when the tree nests no deeper than the limit, and gives back the
  // tree, with order and duplicate keys, exactly when its numbers read back; ints do.
  lemma RoundTrip(v: Json, format: bool, requireNul: bool)
    requires CStrings(v)
    ensures var r := ParseDocument(Render(v, format, 0) + [NUL], requireNul);
            if Nesting(v) <= NESTING_LIMIT then
              && r.Ok? && Accepted(r.tree) && r.rest == [NUL]
              && Meaning(r.tree) == Reread(v) && (Meaning(r.tree) == v <==> NumbersReadBack(v))
            else r.Fail?
    ensures Ints(v) ==> NumbersReadBack(v)
  {
    hide Render, SyntaxOf, ParseDocument, Layout, Accepted, Meaning, Depth, Nesting, Reread, NumbersReadBack, Ints;
    RereadExactly(v);
    if Ints(v) {
      IntTreesReadBack(v);
    }
    var c := SyntaxOf(v, format, 0);
    var text := Render(v, format, 0);
    SyntaxMeans(v, format, 0);
    RenderHasNoNul(v, format, 0);
    RenderIsLayout(v, format, 0, "");
    assert text + "" == text && "" + ("" + Layout(c, "")) == text;
    assert WrittenAs(text, "", "", c, "");
    WrittenIsAccepted(text, "", "", c, "", requireNul);
    assert "" + [NUL] == [NUL];
  }
}
