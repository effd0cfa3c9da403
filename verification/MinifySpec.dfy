/**
 cJSON_Minify: the in-place rewriter equals a pure function on the text, and agrees with
 the unformatted printer except after a string that ends in a backslash.
 */
module MinifySpec {
  import opened StringLiteral
  import opened Numbers
  import opened JsonValue
  import opened Rendering

  predicate Space(c: char) {
    c == ' ' || c == '\t' || c == '\r' || c == '\n'
  }

  // Behind a `//` comment.
  function AfterLine(t: string): (r: string)
    ensures |r| <= |t|
  {
    if t == "" then "" else if t[0] == '\n' then t[1..] else AfterLine(t[1..])
  }

  // Behind a comment closed by `*/`.
  function AfterBlock(t: string): (r: string)
    ensures |r| <= |t|
  {
    if t == "" then "" else if |t| >= 2 && t[0] == '*' && t[1] == '/' then t[2..] else AfterBlock(t[1..])
  }

  // Drop blanks, slashes and comments, copy everything else.
  function Strip(t: string): (r: string)
    ensures |r| <= |t|
    decreases |t|
  {
    if t == "" then ""
    else if Space(t[0]) then Strip(t[1..])
    else if t[0] == '/' then Strip(AfterSlash(t))
    else if t[0] == QUOTE then [QUOTE] + InString(t[1..])
    else [t[0]] + Strip(t[1..])
  }

  // Behind a slash, or behind the comment it opens.
  function AfterSlash(t: string): (r: string)
    requires t != ""
    ensures |r| < |t|
  {
    if |t| >= 2 && t[1] == '/' then AfterLine(t[2..])
    else if |t| >= 2 && t[1] == '*' then AfterBlock(t[2..])
    else t[1..]
  }

  // Inside a string: only a backslash directly in front of a quote hides that quote.
  function InString(t: string): (r: string)
    ensures |r| <= |t|
    ensures t != "" ==> r != "" && r[0] == t[0]
    ensures t == "" ==> r == ""
    decreases |t|
  {
    if t == "" then ""
    else if t[0] == QUOTE then [QUOTE] + Strip(t[1..])
    else if t[0] == BACKSLASH && |t| >= 2 && t[1] == QUOTE then [BACKSLASH, QUOTE] + InString(t[2..])
    else [t[0]] + InString(t[1..])
  }

  // ---- Idempotence ----

  lemma {:induction false} StripIsIdempotent(t: string)
    ensures Strip(Strip(t)) == Strip(t)
    decreases |t|
  {
    if t == "" {
    } else if Space(t[0]) {
      StripIsIdempotent(t[1..]);
    } else if t[0] == '/' {
      StripIsIdempotent(AfterSlash(t));
    } else if t[0] == QUOTE {
      InStringIsIdempotent(t[1..]);
      assert Strip(t)[1..] == InString(t[1..]);
    } else {
      StripIsIdempotent(t[1..]);
      assert Strip(t)[1..] == Strip(t[1..]);
    }
  }

  lemma {:induction false} InStringIsIdempotent(t: string)
    ensures InString(InString(t)) == InString(t)
    decreases |t|
  {
    var r := InString(t);
    if t == "" {
    } else if t[0] == QUOTE {
      StripIsIdempotent(t[1..]);
      assert r[1..] == Strip(t[1..]);
    } else if t[0] == BACKSLASH && |t| >= 2 && t[1] == QUOTE {
      InStringIsIdempotent(t[2..]);
      assert r[2..] == InString(t[2..]);
    } else {
      InStringIsIdempotent(t[1..]);
      assert r[1..] == InString(t[1..]);
    }
  }

  // ---- Nothing is made up ----

  lemma {:induction false} BehindLine(t: string, c: char)
    requires c !in t
    ensures c !in AfterLine(t)
  {
    if t != "" && t[0] != '\n' {
      BehindLine(t[1..], c);
    }
  }

  lemma {:induction false} BehindBlock(t: string, c: char)
    requires c !in t
    ensures c !in AfterBlock(t)
  {
    if t != "" && !(|t| >= 2 && t[0] == '*' && t[1] == '/') {
      BehindBlock(t[1..], c);
    }
  }

  lemma {:induction false} StripAddsNothing(t: string, c: char)
    requires c !in t
    ensures c !in Strip(t) && c !in InString(t)
    decreases |t|
  {
    if t != "" {
      StripAddsNothing(t[1..], c);
      if |t| >= 2 {
        StripAddsNothing(t[2..], c);
        BehindLine(t[2..], c);
        BehindBlock(t[2..], c);
      }
      if t[0] == '/' {
        StripAddsNothing(AfterSlash(t), c);
      }
    }
  }

  // ---- Agreement with the printer ----

  predicate EndsInBackslash(s: string) {
    s != "" && s[|s| - 1] == BACKSLASH
  }

  lemma CleanItemsCons(items: seq<Json>)
    requires items != []
    ensures CleanItems(items) <==> Clean(items[0]) && CleanItems(items[1..])
  {
    hide Clean;
    assert forall i | 0 < i < |items| :: items[i] == items[1..][i - 1];
  }

  lemma CleanMembersCons(members: seq<Member>)
    requires members != []
    ensures CleanMembers(members) <==>
            !EndsInBackslash(members[0].key) && Clean(members[0].value) && CleanMembers(members[1..])
  {
    hide Clean, EndsInBackslash;
    assert forall i | 0 < i < |members| :: members[i] == members[1..][i - 1];
  }

  // No key and no string value ends in a backslash.
  predicate Clean(v: Json) {
    match v
    case String(text) => !EndsInBackslash(text)
    case Array(items) => forall i | 0 <= i < |items| :: Clean(items[i])
    case Object(members) => CleanMembers(members)
    case _ => true
  }

  predicate CleanMembers(members: seq<Member>) {
    forall i | 0 <= i < |members| :: !EndsInBackslash(members[i].key) && Clean(members[i].value)
  }

  predicate CleanItems(items: seq<Json>) {
    forall i | 0 <= i < |items| :: Clean(items[i])
  }

  // Clean, except that a string no formatting follows may end in a backslash: the value
  // itself, or the last element of arrays nested in last position.
  predicate Minifiable(v: Json) {
    match v
    case String(_) => true
    case Array(items) => items == [] || (CleanItems(items[..|items| - 1]) && Minifiable(items[|items| - 1]))
    case _ => Clean(v)
  }

  // What a quoted string does to the scanner.
  lemma {:induction false} QuotedInString(s: string, rest: string)
    ensures InString(EscapeText(s) + [QUOTE] + rest)
            == EscapeText(s) + [QUOTE] + (if EndsInBackslash(s) then InString(rest) else Strip(rest))
  {
    hide InString, Strip, EscapeChar;
    var tail := if EndsInBackslash(s) then InString(rest) else Strip(rest);
    if s == "" {
      CloseInString(rest);
      assert EscapeText(s) + [QUOTE] + rest == [QUOTE] + rest;
      assert EscapeText(s) + [QUOTE] + tail == [QUOTE] + tail;
    } else {
      var e, m := EscapeChar(s[0]), EscapeText(s[1..]);
      var x := m + [QUOTE] + rest;
      assert EscapeText(s) + [QUOTE] + rest == e + x;
      assert EscapeText(s) + [QUOTE] + tail == e + (m + [QUOTE] + tail);
      QuotedInString(s[1..], rest);
      FirstOfEscape(s[1..], rest);
      assert |s| > 1 ==> s[|s| - 1] == s[1..][|s| - 2];
      if s == [BACKSLASH] {
        HiddenQuote(rest);
        assert m + [QUOTE] + rest == [QUOTE] + rest && m + [QUOTE] + tail == [QUOTE] + tail;
      } else {
        EscapeCharInString(s[0], x);
      }
    }
  }

  lemma CloseInString(rest: string)
    ensures InString([QUOTE] + rest) == [QUOTE] + Strip(rest)
  {
    assert ([QUOTE] + rest)[1..] == rest;
  }

  lemma FirstOfEscape(s: string, rest: string)
    ensures var x := EscapeText(s) + [QUOTE] + rest; x != "" && (x[0] == QUOTE <==> s == "")
  {
    if s != "" {
      assert (EscapeText(s) + [QUOTE] + rest)[0] == EscapeChar(s[0])[0];
    }
  }

  // An escaped backslash hides the quote behind it.
  lemma HiddenQuote(rest: string)
    ensures InString(EscapeChar(BACKSLASH) + ([QUOTE] + rest)) == EscapeChar(BACKSLASH) + ([QUOTE] + InString(rest))
  {
    var t := [BACKSLASH, BACKSLASH] + ([QUOTE] + rest);
    var u := [BACKSLASH, QUOTE] + rest;
    assert t == [BACKSLASH] + u && t[1..] == u && u[2..] == rest;
    assert [BACKSLASH] + ([BACKSLASH, QUOTE] + InString(rest)) == [BACKSLASH, BACKSLASH] + ([QUOTE] + InString(rest));
  }

  lemma EscapeCharInString(c: char, x: string)
    requires x != "" && (c == BACKSLASH ==> x[0] != QUOTE)
    ensures InString(EscapeChar(c) + x) == EscapeChar(c) + InString(x)
  {
    hide Strip;
    if c == QUOTE {
      var t := [BACKSLASH, QUOTE] + x;
      assert t[2..] == x;
    } else if c == BACKSLASH {
      var u := [BACKSLASH] + x;
      var t := [BACKSLASH] + u;
      assert t == [BACKSLASH, BACKSLASH] + x && t[1..] == u && u[1..] == x;
      assert InString(u) == [BACKSLASH] + InString(x);
      assert [BACKSLASH] + ([BACKSLASH] + InString(x)) == [BACKSLASH, BACKSLASH] + InString(x);
    } else {
      hide InString, EscapeChar;
      EscapeIsPlain(c);
      PlainInString(EscapeChar(c), x);
    }
  }

  lemma EscapeIsPlain(c: char)
    requires c != QUOTE && c != BACKSLASH
    ensures QUOTE !in EscapeChar(c) && EscapeChar(c)[|EscapeChar(c)| - 1] != BACKSLASH
  {
  }

  // Text without quotes and inner backslashes is copied as it is.
  lemma {:induction false} PlainInString(p: string, x: string)
    requires QUOTE !in p && (p != "" ==> p[|p| - 1] != BACKSLASH)
    ensures InString(p + x) == p + InString(x)
  {
    hide Strip;
    if p == "" {
      assert p + x == x;
    } else {
      var t := p + x;
      assert t[0] == p[0] && t[1..] == p[1..] + x;
      assert p[0] in p && (|p| > 1 ==> t[1] == p[1] && p[1] in p);
      PlainInString(p[1..], x);
      assert InString(t) == [p[0]] + InString(t[1..]);
    }
  }

  // Outside strings, text without blanks, slashes and quotes is copied as it is.
  lemma {:induction false} PlainStrip(p: string, x: string)
    requires Bare(p)
    ensures Strip(p + x) == p + Strip(x)
  {
    if p == "" {
      assert p + x == x;
    } else {
      assert (p + x)[1..] == p[1..] + x;
      PlainStrip(p[1..], x);
    }
  }

  predicate Bare(p: string) {
    forall i | 0 <= i < |p| :: !Space(p[i]) && p[i] != '/' && p[i] != QUOTE
  }

  predicate AllSpace(b: string) {
    forall i | 0 <= i < |b| :: Space(b[i])
  }

  lemma {:induction false} BlankStrip(b: string, x: string)
    requires AllSpace(b)
    ensures Strip(b + x) == Strip(x)
  {
    if b == "" {
      assert b + x == x;
    } else {
      assert (b + x)[1..] == b[1..] + x;
      BlankStrip(b[1..], x);
    }
  }

  lemma QuoteStrip(s: string, x: string)
    ensures Strip(Quote(s) + x) == Quote(s) + (if EndsInBackslash(s) then InString(x) else Strip(x))
  {
    hide Strip, InString, EscapeText;
    var e := EscapeText(s);
    QuotedInString(s, x);
    OpenStrip(e + [QUOTE] + x);
    assert [QUOTE] + (e + [QUOTE] + x) == Quote(s) + x;
    var tail := if EndsInBackslash(s) then InString(x) else Strip(x);
    assert [QUOTE] + (e + [QUOTE] + tail) == Quote(s) + tail;
  }

  lemma OpenStrip(t: string)
    ensures Strip([QUOTE] + t) == [QUOTE] + InString(t)
  {
    assert ([QUOTE] + t)[1..] == t;
  }

  lemma NumberStrip(num: real, rest: string)
    ensures Strip(NumeralText(PrintedNumeral(num)) + rest) == NumeralText(PrintedNumeral(num)) + Strip(rest)
  {
    hide Strip, NumeralText, PrintedNumeral;
    var n := PrintedNumeral(num);
    NumeralIsNumberChars(n);
    PlainStrip(NumeralText(n), rest);
  }

  lemma {:induction false} CleanStrip(v: Json, depth: nat, rest: string)
    requires Clean(v)
    ensures Strip(Render(v, true, depth) + rest) == Render(v, false, depth) + Strip(rest)
    decreases v, 1
  {
    hide Strip, NumeralText, PrintedNumeral, EscapeText, RenderItems, RenderMembers;
    match v
    case String(text) =>
      QuoteStrip(text, rest);
    case Number(num) =>
      NumberStrip(num, rest);
    case Array(items) =>
      ArrayStrip(items, depth, rest);
    case Object(members) =>
      ObjectStrip(members, depth, rest);
    case _ =>
      PlainStrip(Render(v, true, depth), rest);
  }

  lemma {:induction false} ArrayStrip(items: seq<Json>, depth: nat, rest: string)
    requires CleanItems(items)
    ensures Strip(Render(Array(items), true, depth) + rest) == Render(Array(items), false, depth) + Strip(rest)
    decreases items, 2
  {
    hide RenderItems, Strip;
    var f, u := RenderItems(items, true, depth + 1), RenderItems(items, false, depth + 1);
    ItemsStrip(items, depth + 1, "]" + rest);
    assert ("[" + f + "]") + rest == "[" + (f + ("]" + rest));
    PlainStrip("[", f + ("]" + rest));
    PlainStrip("]", rest);
    assert "[" + (u + ("]" + Strip(rest))) == ("[" + u + "]") + Strip(rest);
  }

  lemma {:induction false} ItemsStrip(items: seq<Json>, depth: nat, rest: string)
    requires CleanItems(items)
    ensures Strip(RenderItems(items, true, depth) + rest) == RenderItems(items, false, depth) + Strip(rest)
    decreases items, 0
  {
    hide Render, Strip;
    if items == [] {
      assert RenderItems(items, true, depth) + rest == rest;
    } else {
      var a, b := Render(items[0], true, depth), Render(items[0], false, depth);
      var f, u := RenderItems(items[1..], true, depth), RenderItems(items[1..], false, depth);
      var s, n := Separator(|items| > 1, true), Separator(|items| > 1, false);
      ItemsStrip(items[1..], depth, rest);
      Regroup(a, s, f, rest);
      CleanStrip(items[0], depth, s + (f + rest));
      SeparatorStrip(|items| > 1, f + rest);
      Regroup(b, n, u, Strip(rest));
    }
  }

  lemma SeparatorStrip(more: bool, x: string)
    ensures Strip(Separator(more, true) + x) == Separator(more, false) + Strip(x)
  {
    hide Strip;
    if more {
      assert Separator(more, true) + x == "," + (" " + x);
      PlainStrip(",", " " + x);
      BlankStrip(" ", x);
    } else {
      assert Separator(more, true) + x == x;
    }
  }

  lemma {:induction false} ObjectStrip(members: seq<Member>, depth: nat, rest: string)
    requires CleanMembers(members)
    ensures Strip(Render(Object(members), true, depth) + rest) == Render(Object(members), false, depth) + Strip(rest)
    decreases members, 2
  {
    hide RenderMembers, Strip;
    var f, u := RenderMembers(members, true, depth + 1), RenderMembers(members, false, depth + 1);
    var close := Tabs(depth) + ("}" + rest);
    MembersStrip(members, depth + 1, close);
    assert ("{" + "\n" + f + (Tabs(depth) + "}")) + rest == "{" + ("\n" + (f + close));
    PlainStrip("{", "\n" + (f + close));
    BlankStrip("\n", f + close);
    BlankStrip(Tabs(depth), "}" + rest);
    PlainStrip("}", rest);
    assert "{" + (u + ("}" + Strip(rest))) == (("{" + "") + u + ("" + "}")) + Strip(rest);
  }

  lemma {:induction false} MembersStrip(members: seq<Member>, depth: nat, rest: string)
    requires CleanMembers(members)
    ensures Strip(RenderMembers(members, true, depth) + rest) == RenderMembers(members, false, depth) + Strip(rest)
    decreases members, 0
  {
    hide Render, Strip, RenderKey, MemberEnd;
    if members == [] {
      assert RenderMembers(members, true, depth) + rest == rest;
    } else {
      var m := members[0];
      var k, l := RenderKey(m.key, true, depth), RenderKey(m.key, false, depth);
      var a, b := Render(m.value, true, depth), Render(m.value, false, depth);
      var f, u := RenderMembers(members[1..], true, depth), RenderMembers(members[1..], false, depth);
      var s, n := MemberEnd(|members| > 1, true), MemberEnd(|members| > 1, false);
      MembersStrip(members[1..], depth, rest);
      Regroup(k + a, s, f, rest);
      assert (k + a) + (s + (f + rest)) == k + (a + (s + (f + rest)));
      KeyStrip(m.key, depth, a + (s + (f + rest)));
      CleanStrip(m.value, depth, s + (f + rest));
      MemberEndStrip(|members| > 1, f + rest);
      assert l + (b + (n + (u + Strip(rest)))) == (l + b) + (n + (u + Strip(rest)));
      Regroup(l + b, n, u, Strip(rest));
    }
  }

  lemma TabsAreSpace(n: nat)
    ensures AllSpace(Tabs(n))
  {
  }

  lemma KeyStrip(key: string, depth: nat, x: string)
    requires !EndsInBackslash(key)
    ensures Strip(RenderKey(key, true, depth) + x) == RenderKey(key, false, depth) + Strip(x)
  {
    hide RenderKey;
    hide Strip, Quote;
    KeyText(key, depth, x, Strip(x));
    TabsAreSpace(depth);
    BlankStrip(Tabs(depth), Quote(key) + (":" + ("\t" + x)));
    QuoteStrip(key, ":" + ("\t" + x));
    PlainStrip(":", "\t" + x);
    BlankStrip("\t", x);
  }

  lemma MemberEndStrip(more: bool, x: string)
    ensures Strip(MemberEnd(more, true) + x) == MemberEnd(more, false) + Strip(x)
  {
    hide Strip;
    var c := if more then "," else "";
    assert MemberEnd(more, true) + x == c + ("\n" + x);
    PlainStrip(c, "\n" + x);
    BlankStrip("\n", x);
  }

  // ---- Where they disagree ----

  // The texts have a first difference inside both.
  ghost predicate Differ(a: string, b: string) {
    exists k :: 0 <= k < |a| && k < |b| && a[..k] == b[..k] && a[k] != b[k]
  }

  lemma DifferAfter(p: string, a: string, b: string)
    requires Differ(a, b)
    ensures Differ(p + a, p + b)
  {
    var k :| 0 <= k < |a| && k < |b| && a[..k] == b[..k] && a[k] != b[k];
    var j := |p| + k;
    assert (p + a)[..j] == p + a[..k] && (p + b)[..j] == p + b[..k];
    assert (p + a)[j] != (p + b)[j];
  }

  lemma DifferAt(p: string, a: string, b: string)
    requires a != "" && b != "" && a[0] != b[0]
    ensures Differ(p + a, p + b)
  {
    assert a[..0] == b[..0];
    assert Differ(a, b);
    DifferAfter(p, a, b);
  }

  // A value with a bad string makes the scanner copy what formatting follows.
  lemma {:induction false} UncleanDiffers(v: Json, depth: nat, rest: string, unformatted: string)
    requires !Clean(v)
    requires Differ(InString(rest), unformatted)
    ensures Differ(Strip(Render(v, true, depth) + rest), Render(v, false, depth) + unformatted)
    decreases v, 1
  {
    match v
    case String(text) =>
      QuoteStrip(text, rest);
      DifferAfter(Quote(text), InString(rest), unformatted);
    case Array(items) =>
      UncleanArray(items, depth, rest, unformatted);
    case Object(members) =>
      UncleanObject(members, depth, rest, unformatted);
  }

  lemma {:induction false} UncleanArray(items: seq<Json>, depth: nat, rest: string, unformatted: string)
    requires !CleanItems(items)
    requires Differ(InString(rest), unformatted)
    ensures Differ(Strip(Render(Array(items), true, depth) + rest), Render(Array(items), false, depth) + unformatted)
    decreases items, 2
  {
    hide RenderItems, Strip, InString;
    var f, u := RenderItems(items, true, depth + 1), RenderItems(items, false, depth + 1);
    PlainInString("]", rest);
    DifferAfter("]", InString(rest), unformatted);
    UncleanItems(items, depth + 1, "]" + rest, "]" + unformatted);
    ArrayAround(f, u, rest, unformatted);
  }

  lemma ArrayAround(f: string, u: string, rest: string, unformatted: string)
    requires Differ(Strip(f + ("]" + rest)), u + ("]" + unformatted))
    ensures Differ(Strip(("[" + f + "]") + rest), ("[" + u + "]") + unformatted)
  {
    hide Strip;
    assert ("[" + f + "]") + rest == "[" + (f + ("]" + rest));
    PlainStrip("[", f + ("]" + rest));
    DifferAfter("[", Strip(f + ("]" + rest)), u + ("]" + unformatted));
    assert "[" + (u + ("]" + unformatted)) == ("[" + u + "]") + unformatted;
  }

  lemma {:induction false} UncleanItems(items: seq<Json>, depth: nat, rest: string, unformatted: string)
    requires !CleanItems(items)
    requires Differ(InString(rest), unformatted)
    ensures Differ(Strip(RenderItems(items, true, depth) + rest), RenderItems(items, false, depth) + unformatted)
    decreases items, 0
  {
    hide Render, Strip, InString, Separator;
    var a, b := Render(items[0], true, depth), Render(items[0], false, depth);
    var f, u := RenderItems(items[1..], true, depth), RenderItems(items[1..], false, depth);
    var s, n := Separator(|items| > 1, true), Separator(|items| > 1, false);
    Regroup(a, s, f, rest);
    Regroup(b, n, u, unformatted);
    CleanItemsCons(items);
    if Clean(items[0]) {
      UncleanItems(items[1..], depth, rest, unformatted);
      CleanStrip(items[0], depth, s + (f + rest));
      SeparatorStrip(|items| > 1, f + rest);
      DifferAfter(n, Strip(f + rest), u + unformatted);
      DifferAfter(b, n + Strip(f + rest), n + (u + unformatted));
    } else {
      ItemTailDiffers(items, depth, rest, unformatted);
      UncleanDiffers(items[0], depth, s + (f + rest), n + (u + unformatted));
    }
  }

  // What follows an element: a comma and a blank the unformatted text does not have, or
  // what follows the array.
  lemma ItemTailDiffers(items: seq<Json>, depth: nat, rest: string, unformatted: string)
    requires items != []
    requires |items| == 1 ==> Differ(InString(rest), unformatted)
    ensures var f, u := RenderItems(items[1..], true, depth), RenderItems(items[1..], false, depth);
            Differ(InString(Separator(|items| > 1, true) + (f + rest)),
                   Separator(|items| > 1, false) + (u + unformatted))
  {
    hide InString, Render, Differ;
    var f, u := RenderItems(items[1..], true, depth), RenderItems(items[1..], false, depth);
    if |items| == 1 {
      assert "" + ("" + rest) == rest && "" + ("" + unformatted) == unformatted;
    } else {
      PlainInString(", ", f + rest);
      VisibleStart(items[1], depth);
      assert u[0] == Render(items[1..][0], false, depth)[0];
      assert Separator(true, true) == ", " && Separator(true, false) == ",";
      assert ", " + InString(f + rest) == "," + (" " + InString(f + rest));
      DifferAt(",", " " + InString(f + rest), u + unformatted);
    }
  }

  lemma VisibleStart(v: Json, depth: nat)
    ensures var t := Render(v, false, depth); t != "" && !Space(t[0])
  {
    match v
    case Number(num) =>
      var n := PrintedNumeral(num);
      NumeralIsNumberChars(n);
      assert NumberChar(NumeralText(n)[0]);
    case _ =>
  }

  lemma {:induction false} UncleanObject(members: seq<Member>, depth: nat, rest: string, unformatted: string)
    requires !CleanMembers(members)
    ensures Differ(Strip(Render(Object(members), true, depth) + rest),
                   Render(Object(members), false, depth) + unformatted)
    decreases members, 2
  {
    hide RenderMembers, Strip;
    var f, u := RenderMembers(members, true, depth + 1), RenderMembers(members, false, depth + 1);
    var close := Tabs(depth) + ("}" + rest);
    UncleanMembers(members, depth + 1, close, "}" + unformatted);
    assert ("{" + "\n" + f + (Tabs(depth) + "}")) + rest == "{" + ("\n" + (f + close));
    PlainStrip("{", "\n" + (f + close));
    BlankStrip("\n", f + close);
    DifferAfter("{", Strip(f + close), u + ("}" + unformatted));
    assert "{" + (u + ("}" + unformatted)) == (("{" + "") + u + ("" + "}")) + unformatted;
  }

  lemma {:induction false} UncleanMembers(members: seq<Member>, depth: nat, rest: string, unformatted: string)
    requires !CleanMembers(members)
    requires unformatted != "" && unformatted[0] == '}'
    ensures Differ(Strip(RenderMembers(members, true, depth) + rest),
                   RenderMembers(members, false, depth) + unformatted)
    decreases members, 0
  {
    hide Render, Strip, RenderKey, MemberEnd, InString;
    var m := members[0];
    var k, l := RenderKey(m.key, true, depth), RenderKey(m.key, false, depth);
    var a, b := Render(m.value, true, depth), Render(m.value, false, depth);
    var f, u := RenderMembers(members[1..], true, depth), RenderMembers(members[1..], false, depth);
    var s, n := MemberEnd(|members| > 1, true), MemberEnd(|members| > 1, false);
    var after, afterU := s + (f + rest), n + (u + unformatted);
    Regroup(k + a, s, f, rest);
    Regroup(l + b, n, u, unformatted);
    CleanMembersCons(members);
    assert (k + a) + after == k + (a + after) && (l + b) + afterU == l + (b + afterU);
    if EndsInBackslash(m.key) {
      VisibleStart(m.value, depth);
      UncleanKey(m.key, depth, a + after, b + afterU);
    } else {
      KeyStrip(m.key, depth, a + after);
      if Clean(m.value) {
        UncleanMembers(members[1..], depth, rest, unformatted);
        CleanStrip(m.value, depth, after);
        MemberEndStrip(|members| > 1, f + rest);
        DifferAfter(n, Strip(f + rest), u + unformatted);
        DifferAfter(b, n + Strip(f + rest), afterU);
      } else {
        MemberTailDiffers(members, depth, rest, unformatted);
        UncleanDiffers(m.value, depth, after, afterU);
      }
      DifferAfter(l, Strip(a + after), b + afterU);
    }
  }

  lemma UncleanKey(key: string, depth: nat, x: string, y: string)
    requires EndsInBackslash(key) && y != "" && !Space(y[0])
    ensures Differ(Strip(RenderKey(key, true, depth) + x), RenderKey(key, false, depth) + y)
  {
    hide Strip, Quote, InString, RenderKey, Differ;
    var colon := ":" + ("\t" + x);
    KeyText(key, depth, x, y);
    TabsAreSpace(depth);
    BlankStrip(Tabs(depth), Quote(key) + colon);
    QuoteStrip(key, colon);
    ColonInString(x);
    DifferAt(":", "\t" + InString(x), y);
    DifferAfter(Quote(key), InString(colon), ":" + y);
  }

  lemma ColonInString(x: string)
    ensures InString(":" + ("\t" + x)) == ":" + ("\t" + InString(x))
  {
    hide InString;
    assert ":" + ("\t" + x) == ":\t" + x;
    PlainInString(":\t", x);
    assert ":\t" + InString(x) == ":" + ("\t" + InString(x));
  }

  lemma KeyText(key: string, depth: nat, x: string, y: string)
    ensures RenderKey(key, true, depth) + x == Tabs(depth) + (Quote(key) + (":" + ("\t" + x)))
    ensures RenderKey(key, false, depth) + y == Quote(key) + (":" + y)
  {
    hide Quote, Tabs;
  }

  // What follows a member's value: a newline the unformatted text does not have.
  lemma MemberTailDiffers(members: seq<Member>, depth: nat, rest: string, unformatted: string)
    requires members != []
    requires unformatted != "" && unformatted[0] == '}'
    ensures var f, u := RenderMembers(members[1..], true, depth), RenderMembers(members[1..], false, depth);
            Differ(InString(MemberEnd(|members| > 1, true) + (f + rest)),
                   MemberEnd(|members| > 1, false) + (u + unformatted))
  {
    hide InString, Render;
    var f, u := RenderMembers(members[1..], true, depth), RenderMembers(members[1..], false, depth);
    var c := if |members| > 1 then "," else "";
    assert MemberEnd(|members| > 1, true) == c + "\n" && MemberEnd(|members| > 1, false) == c;
    PlainInString(c + "\n", f + rest);
    assert (c + "\n") + InString(f + rest) == c + ("\n" + InString(f + rest));
    assert (u + unformatted)[0] == if |members| > 1 then QUOTE else '}' by {
      if |members| > 1 {
        assert RenderKey(members[1..][0].key, false, depth)[0] == QUOTE;
      }
    }
    DifferAt(c, "\n" + InString(f + rest), u + unformatted);
  }

  // ---- Exactly when Minify turns formatted into unformatted output ----

  lemma {:induction false} NoQuoteInString(t: string)
    requires QUOTE !in t
    ensures InString(t) == t
  {
    if t != "" {
      NoQuoteInString(t[1..]);
    }
  }

  predicate Closers(rest: string) {
    forall i | 0 <= i < |rest| :: rest[i] == ']'
  }

  lemma {:induction false} LastStrip(v: Json, depth: nat, rest: string)
    requires Closers(rest)
    ensures Minifiable(v) ==> Strip(Render(v, true, depth) + rest) == Render(v, false, depth) + rest
    ensures !Minifiable(v) ==> Differ(Strip(Render(v, true, depth) + rest), Render(v, false, depth) + rest)
    decreases v, 1
  {
    hide Strip, Render;
    PlainStrip(rest, "");
    assert rest + "" == rest && Strip("") == "" by { StripNothing(); }
    match v
    case String(text) =>
      RenderString(text, depth);
      QuoteStrip(text, rest);
      NoQuoteInString(rest);
    case Array(items) =>
      LastArrayStrip(items, depth, rest);
    case Object(members) =>
      if Clean(v) {
        CleanStrip(v, depth, rest);
      } else {
        UncleanObject(members, depth, rest, rest);
      }
    case _ =>
      CleanStrip(v, depth, rest);
  }

  lemma StripNothing()
    ensures Strip("") == ""
  {
  }

  lemma RenderString(text: string, depth: nat)
    ensures Render(String(text), true, depth) == Render(String(text), false, depth) == Quote(text)
  {
  }

  lemma {:induction false} LastArrayStrip(items: seq<Json>, depth: nat, rest: string)
    requires Closers(rest)
    ensures Minifiable(Array(items)) ==>
              Strip(Render(Array(items), true, depth) + rest) == Render(Array(items), false, depth) + rest
    ensures !Minifiable(Array(items)) ==>
              Differ(Strip(Render(Array(items), true, depth) + rest), Render(Array(items), false, depth) + rest)
    decreases items, 2
  {
    hide Strip, RenderItems;
    var f, u := RenderItems(items, true, depth + 1), RenderItems(items, false, depth + 1);
    if items == [] {
      PlainStrip(rest, "");
      StripNothing();
      assert rest + "" == rest;
      ArrayStrip(items, depth, rest);
    } else {
      LastItemsStrip(items, depth + 1, "]" + rest);
      if Minifiable(Array(items)) {
        assert ("[" + f + "]") + rest == "[" + (f + ("]" + rest));
        PlainStrip("[", f + ("]" + rest));
        assert "[" + (u + ("]" + rest)) == ("[" + u + "]") + rest;
      } else {
        ArrayAround(f, u, rest, rest);
      }
    }
  }

  lemma {:induction false} LastItemsStrip(items: seq<Json>, depth: nat, rest: string)
    requires items != [] && Closers(rest)
    ensures Minifiable(Array(items)) ==>
              Strip(RenderItems(items, true, depth) + rest) == RenderItems(items, false, depth) + rest
    ensures !Minifiable(Array(items)) ==>
              Differ(Strip(RenderItems(items, true, depth) + rest), RenderItems(items, false, depth) + rest)
    decreases items, 0
  {
    hide Render, Strip, InString, Separator;
    var a, b := Render(items[0], true, depth), Render(items[0], false, depth);
    var f, u := RenderItems(items[1..], true, depth), RenderItems(items[1..], false, depth);
    var s, n := Separator(|items| > 1, true), Separator(|items| > 1, false);
    Regroup(a, s, f, rest);
    Regroup(b, n, u, rest);
    LastItemsSplit(items);
    if |items| == 1 {
      OnlySeparator(rest, depth);
      LastStrip(items[0], depth, rest);
    } else if Clean(items[0]) {
      LastItemsStrip(items[1..], depth, rest);
      CleanStrip(items[0], depth, s + (f + rest));
      SeparatorStrip(|items| > 1, f + rest);
      if !Minifiable(Array(items)) {
        DifferAfter(n, Strip(f + rest), u + rest);
        DifferAfter(b, n + Strip(f + rest), n + (u + rest));
      }
    } else {
      ItemTailDiffers(items, depth, rest, rest);
      UncleanDiffers(items[0], depth, s + (f + rest), n + (u + rest));
    }
  }

  lemma OnlySeparator(rest: string, depth: nat)
    ensures forall format: bool :: Separator(false, format) + (RenderItems([], format, depth) + rest) == rest
  {
  }

  lemma LastItemsSplit(items: seq<Json>)
    requires items != []
    ensures |items| == 1 ==> (Minifiable(Array(items)) <==> Minifiable(items[0])) && items[1..] == []
    ensures |items| > 1 ==> (Minifiable(Array(items)) <==> Clean(items[0]) && Minifiable(Array(items[1..])))
  {
    hide Clean;
    if |items| > 1 {
      var front := items[..|items| - 1];
      assert front == [items[0]] + items[1..][..|items[1..]| - 1];
      assert CleanItems(front) <==> Clean(items[0]) && CleanItems(front[1..]) by {
        if CleanItems(front[1..]) && Clean(items[0]) {
          assert forall i | 0 < i < |front| :: front[i] == front[1..][i - 1];
        }
      }
      assert front[1..] == items[1..][..|items[1..]| - 1];
    }
  }

  // Minify turns the formatted print into the unformatted one exactly for minifiable trees.
  lemma MinifyAgreesExactly(v: Json)
    ensures Strip(Render(v, true, 0)) == Render(v, false, 0) <==> Minifiable(v)
  {
    hide Strip, Render;
    LastStrip(v, 0, "");
    assert Render(v, true, 0) + "" == Render(v, true, 0);
    assert Render(v, false, 0) + "" == Render(v, false, 0);
  }

  lemma {:induction false} CleanIsMinifiable(v: Json)
    requires Clean(v)
    ensures Minifiable(v)
  {
    if v.Array? && v.items != [] {
      CleanIsMinifiable(v.items[|v.items| - 1]);
    }
  }

  // A disagreement: ["\\", null] keeps its blank.
  lemma BackslashBreaksMinify()
    ensures var v := Array([String([BACKSLASH]), Null]);
            !Minifiable(v) && Strip(Render(v, true, 0)) != Render(v, false, 0)
  {
    var v := Array([String([BACKSLASH]), Null]);
    assert v.items[..1][0] == String([BACKSLASH]);
    MinifyAgreesExactly(v);
  }
}
