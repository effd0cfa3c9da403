/**
 The printer as it runs: a recursive writer into a growable or preallocated buffer. Each
 routine leaves a NUL-terminated text behind the cursor, which its caller commits.
 */
module Printer {
  import opened CText
  import opened StringLiteral
  import opened Numbers
  import opened JsonValue
  import opened Rendering
  import opened FormatScan
  import opened Nodes

  // ---- Trees of values ----

  // A wired tree of values.
  ghost predicate Sound(sh: Shape)
    reads Blocks(sh)
  {
    Wired(sh) && Valued(sh)
  }

  ghost predicate SoundList(kids: seq<Shape>)
    reads BlocksOf(kids)
  {
    && ValuedAll(kids) && NextLinks(kids)
    && forall i | 0 <= i < |kids| :: Sound(kids[i])
  }

  lemma SoundHasValue(sh: Shape)
    requires Sound(sh)
    ensures Valued(sh)
  {
  }

  lemma SoundHaveValues(kids: seq<Shape>)
    requires SoundList(kids)
    ensures ValuedAll(kids)
  {
  }

  lemma ContainerParts(sh: Shape)
    requires Sound(sh) && (sh.data.DArray? || sh.data.DObject?)
    ensures SoundList(sh.kids) && sh.node.child == First(sh.kids) && BlocksOf(sh.kids) <= Blocks(sh)
  {
    hide Wired;
    WiredParts(sh);
    assert ValuedAll(sh.kids);
    assert forall i | 0 <= i < |sh.kids| :: Wired(sh.kids[i]) && Valued(sh.kids[i]) && Sound(sh.kids[i]);
  }

  lemma LeafParts(sh: Shape, format: bool, depth: nat)
    requires Sound(sh)
    ensures match sh.data
            case DNull => sh.node.kind == KNull && Render(ValueOf(sh), format, depth) == "null"
            case DFalse => sh.node.kind == KFalse && Render(ValueOf(sh), format, depth) == "false"
            case DTrue => sh.node.kind == KTrue && Render(ValueOf(sh), format, depth) == "true"
            case DNumber(num) =>
              && sh.node.kind == KNumber && sh.node.valueint == Saturate(sh.node.valuedouble)
              && Render(ValueOf(sh), format, depth) == NumeralText(PrintedNumeral(sh.node.valuedouble))
            case DString(text) =>
              && sh.node.kind == KString && sh.node.valuestring != null && sh.node.valuestring in Blocks(sh)
              && Spells(sh.node.valuestring, text) && Render(ValueOf(sh), format, depth) == Quote(text)
            case DArray => sh.node.kind == KArray
            case DObject => sh.node.kind == KObject
            case DInvalid => false
  {
    hide WiredList, RenderItems, RenderMembers, NumeralText, PrintedNumeral, EscapeText, ItemsOf, MembersOf, BlocksOf;
  }

  lemma NextSound(kids: seq<Shape>, i: nat)
    requires SoundList(kids) && i < |kids|
    ensures Sound(kids[i]) && Blocks(kids[i]) <= BlocksOf(kids) && kids[i].node.next == NodeAt(kids, i + 1)
    ensures ItemsOf(kids)[i] == ValueOf(kids[i])
  {
    hide Sound, Blocks;
  }

  lemma NextMember(kids: seq<Shape>, i: nat)
    requires SoundList(kids) && i < |kids|
    ensures Sound(kids[i]) && Blocks(kids[i]) <= BlocksOf(kids) && kids[i].node.next == NodeAt(kids, i + 1)
    ensures MembersOf(kids)[i] == Member(kids[i].name, ValueOf(kids[i]))
  {
    hide Sound, Blocks;
  }

  lemma KeyParts(sh: Shape)
    requires Sound(sh)
    ensures sh.node.key == sh.key
    ensures if sh.key == null then sh.name == "" else Spells(sh.key, sh.name) && sh.key in Blocks(sh)
  {
    hide WiredList, BlocksOf;
  }

  // ---- Texts ----

  lemma EscapeTextOfNothing()
    ensures EscapeText("") == "" && forall s: string :: s[..0] == ""
  {
  }

  lemma SpelledAt(a: array<char>, s: string, i: nat)
    requires Spells(a, s) && i <= |s|
    ensures i < a.Length && (a[i] == NUL <==> i == |s|) && (i < |s| ==> a[i] == s[i])
  {
  }

  lemma {:induction false} EscapeTextSnoc(s: string, i: nat)
    requires i < |s|
    ensures EscapeText(s[..i + 1]) == EscapeText(s[..i]) + EscapeChar(s[i])
  {
    var a, b := s[..i + 1], s[..i];
    if i == 0 {
      assert a == [s[0]] && a[1..] == "";
      assert EscapeText(a[1..]) == "";
      assert EscapeText(b) == "";
    } else {
      var t := s[1..];
      EscapeTextSnoc(t, i - 1);
      assert a[1..] == t[..i] && b[1..] == t[..i - 1];
    }
  }

  lemma {:induction false} EscapeTextPrefix(s: string, i: nat)
    requires i <= |s|
    ensures |EscapeText(s[..i])| <= |EscapeText(s)|
    decreases |s| - i
  {
    if i < |s| {
      EscapeTextSnoc(s, i);
      EscapeTextPrefix(s, i + 1);
    } else {
      assert s[..i] == s;
    }
  }

  lemma QuoteHasNoNul(s: string)
    ensures NUL !in Quote(s)
  {
    EscapeTextHasNoNul(s);
  }

  lemma ArrayText(sh: Shape, format: bool, depth: nat)
    requires Valued(sh) && sh.data.DArray?
    ensures ValuedAll(sh.kids)
    ensures Render(ValueOf(sh), format, depth) == "[" + RenderItems(ItemsOf(sh.kids), format, depth + 1) + "]"
  {
    hide RenderItems, ItemsOf;
  }

  lemma ItemsStep(items: seq<Json>, i: nat, format: bool, d: nat)
    requires i < |items|
    ensures RenderItems(items[i..], format, d)
            == Render(items[i], format, d) + Separator(i + 1 < |items|, format) + RenderItems(items[i + 1..], format, d)
  {
    hide Render, Separator;
    assert items[i..][1..] == items[i + 1..];
  }

  lemma ItemsEnd(items: seq<Json>, i: nat, format: bool, d: nat)
    requires i == |items|
    ensures RenderItems(items[i..], format, d) == ""
  {
  }

  ghost function RenderMember(m: Member, more: bool, format: bool, depth: nat): string {
    RenderKey(m.key, format, depth) + Render(m.value, format, depth) + MemberEnd(more, format)
  }

  lemma KeyText(key: string, format: bool, depth: nat)
    ensures RenderKey(key, format, depth) == Fmt(format, Tabs(depth)) + (Quote(key) + (":" + Fmt(format, "\t")))
  {
    hide EscapeText, Tabs, Quote;
  }

  lemma ObjectText(sh: Shape, format: bool, depth: nat)
    requires Valued(sh) && sh.data.DObject?
    ensures ValuedAll(sh.kids)
    ensures Render(ValueOf(sh), format, depth)
            == ("{" + Fmt(format, "\n")) + RenderMembers(MembersOf(sh.kids), format, depth + 1)
               + (Fmt(format, Tabs(depth)) + "}")
  {
    hide RenderMembers, MembersOf;
  }

  lemma MembersStep(members: seq<Member>, i: nat, format: bool, d: nat)
    requires i < |members|
    ensures RenderMembers(members[i..], format, d)
            == RenderMember(members[i], i + 1 < |members|, format, d) + RenderMembers(members[i + 1..], format, d)
  {
    hide Render, RenderKey, MemberEnd;
    assert members[i..][1..] == members[i + 1..];
  }

  lemma MembersEnd(members: seq<Member>, i: nat, format: bool, d: nat)
    requires i == |members|
    ensures RenderMembers(members[i..], format, d) == ""
  {
  }

  class PrintBuffer {
    var buffer: array?<char>
    var length: nat
    var offset: nat
    var depth: nat
    const noalloc: bool
    const format: bool
    const mem: Allocator
    // What a preallocated array holds behind the length given.
    ghost const tail: seq<char>

    constructor (buffer: array<char>, length: nat, noalloc: bool, format: bool, mem: Allocator)
      requires length <= buffer.Length
      ensures tail == buffer[length..]
      ensures this.buffer == buffer && this.length == length && offset == 0 && depth == 0
      ensures this.noalloc == noalloc && this.format == format && this.mem == mem
    {
      this.buffer, this.length, offset, depth := buffer, length, 0, 0;
      this.noalloc, this.format, this.mem := noalloc, format, mem;
      tail := buffer[length..];
    }

    // The length is that of the buffer, or the bytes behind it are as they were.
    ghost predicate Bounded()
      reads this`buffer, this`length, buffer
    {
      buffer != null ==>
        && length <= buffer.Length
        && if noalloc then buffer[length..] == tail else length == buffer.Length
    }

    ghost predicate Valid()
      reads this, buffer, mem
    {
      && this !in mem.live && mem !in mem.live
      && length <= INT_MAX && Bounded()
      && (buffer != null ==> offset < length || (length == 0 && offset == 0))
      && (buffer != null && !noalloc ==> buffer in mem.live)
      && (noalloc ==> buffer != null)
    }

    // The blocks in use, apart from the buffer.
    ghost function Others(): set<object>
      reads this`buffer, mem
    {
      mem.live - Optional(buffer)
    }

    // The buffer begins with `s`.
    ghost predicate Shows(s: string)
      reads this`buffer, buffer
    {
      buffer != null && |s| <= buffer.Length && forall i | 0 <= i < |s| :: buffer[i] == s[i]
    }

    // The committed text is `done`.
    ghost predicate Ready(done: string)
      reads this, buffer, mem
    {
      Valid() && Shows(done) && offset == |done|
    }

    // `text` and its terminator stand behind `done`, and there was a byte to spare. The
    // cursor may have moved into `text` already.
    ghost predicate Pending(done: string, text: string)
      reads this, buffer, mem
    {
      && Valid() && Shows(done + text + [NUL])
      && |done| <= offset <= |done| + |text| && |done| + |text| + 2 <= length
    }

    // Why a request for `total` bytes in all was turned down.
    ghost predicate Refused(total: int, before: nat)
      reads this, buffer, mem
    {
      Valid() && if noalloc then total > length else mem.failures > before || total > INT_MAX
    }

    // What every step keeps: the other blocks, and a preallocated buffer. A step that
    // succeeds has seen no allocation fail.
    twostate predicate Kept(ok: bool)
      reads this, mem
    {
      && Others() == old(Others())
      && (if ok then mem.failures == old(mem.failures) else mem.failures >= old(mem.failures))
      && (noalloc ==> buffer == old(buffer) && length == old(length) && mem.live == old(mem.live))
      && (buffer == old(buffer) || buffer == null || fresh(buffer))
    }

    // ensure: room for `needed` more bytes behind the cursor.
    method Ensure(needed: nat, ghost done: string) returns (ok: bool)
      requires Ready(done)
      modifies this`buffer, this`length, mem
      ensures Kept(ok)
      ensures ok ==> Ready(done) && offset + needed + 1 <= length
      ensures !ok ==> Refused(offset + needed + 1, old(mem.failures))
    {
      if length > 0 && offset >= length {
        return false;
      }
      if needed > INT_MAX {
        return false;
      }
      var total := needed + offset + 1;
      if total <= length {
        return true;
      }
      if noalloc {
        return false;
      }
      var newsize;
      if total > INT_MAX / 2 {
        if total <= INT_MAX {
          newsize := INT_MAX;
        } else {
          return false;
        }
      } else {
        newsize := total * 2;
      }
      var newbuffer := mem.Resize(buffer, newsize);
      if newbuffer == null {
        mem.Release(buffer);
        length := 0;
        buffer := null;
        return false;
      }
      length := newsize;
      buffer := newbuffer;
      ok := true;
    }

    // update_offset: commit the text up to its terminator.
    method UpdateOffset(ghost done: string, ghost text: string)
      requires Pending(done, text) && NUL !in text
      modifies this`offset
      ensures Ready(done + text)
    {
      ghost var all := done + text + [NUL];
      assert forall i | |done| <= i < |done| + |text| :: all[i] == text[i - |done|] && text[i - |done|] in text;
      while buffer[offset] != NUL
        invariant |done| <= offset <= |done| + |text|
        decreases |all| - offset
      {
        offset := offset + 1;
      }
      ShowsPart(done + text, [NUL]);
    }

    lemma ShowsPart(s: string, t: string)
      requires Shows(s + t)
      ensures Shows(s)
    {
      assert forall i | 0 <= i < |s| :: (s + t)[i] == s[i];
    }

    lemma ShowsMore(s: string, t: string)
      requires Shows(s) && |s| + |t| <= buffer.Length
      requires forall i | 0 <= i < |t| :: buffer[|s| + i] == t[i]
      ensures Shows(s + t)
    {
      forall i | 0 <= i < |s + t|
        ensures buffer[i] == (s + t)[i]
      {
        if i >= |s| {
          assert buffer[|s| + (i - |s|)] == t[i - |s|];
        }
      }
    }

    lemma PendingJoin(done: string, a: string, b: string)
      requires Pending(done + a, b)
      ensures Pending(done, a + b)
    {
      assert done + (a + b) + [NUL] == done + a + b + [NUL];
    }

    lemma Spelled(text: string)
      requires Pending("", text) && NUL !in text
      ensures Spells(buffer, text)
    {
      var all := "" + text + [NUL];
      assert forall i | 0 <= i < |text| :: all[i] == text[i] && text[i] in text;
      assert all[|text|] == NUL;
    }

    // strcpy to the cursor.
    method StrCpy(text: string, ghost done: string)
      requires Ready(done) && offset + |text| + 2 <= length
      modifies buffer
      ensures Pending(done, text) && offset == |done|
    {
      forall i | 0 <= i < |text| {
        buffer[offset + i] := text[i];
      }
      buffer[offset + |text|] := NUL;
      ShowsMore(done, text);
      ShowsMore(done + text, [NUL]);
    }

    // A text of fixed spelling: "null", "false", "true", the empty string and "]".
    method PrintWord(word: string, ghost done: string) returns (ok: bool)
      requires Ready(done)
      modifies this`buffer, this`length, buffer, mem
      ensures Kept(ok)
      ensures ok ==> Pending(done, word)
      ensures !ok ==> Refused(|done| + |word| + 2, old(mem.failures))
    {
      ok := Ensure(|word| + 1, done);
      if ok {
        StrCpy(word, done);
      }
    }

    // The formatting of print_number: fifteen digits, or seventeen when sscanf does not get
    // the number back from those.
    method FormatNumber(item: Node) returns (number: string)
      requires item.valueint == Saturate(item.valuedouble)
      ensures number == NumeralText(PrintedNumeral(item.valuedouble))
    {
      hide NumeralText, NumeralValue, Saturate, CompareDouble, Strtod;
      var d := item.valuedouble;
      if d == item.valueint as real {
        number := IntText(item.valueint);
      } else {
        number := NumeralText(G15(d));
        var reading := Strtod(number);
        StrtodReadsNumeral(G15(d));
        if reading.NoNumber? || !CompareDouble(DoubleOf(reading.numeral), d) {
          number := NumeralText(G17(d));
        }
      }
    }

    // The copy loop of print_number.
    method WriteNumber(number: string, ghost done: string)
      requires Ready(done) && offset + |number| + 2 <= length
      modifies buffer
      ensures Pending(done, number) && offset == |done|
    {
      var i := 0;
      while i < |number|
        invariant i <= |number| && Ready(done) && offset + |number| + 2 <= length
        invariant forall k | 0 <= k < i :: buffer[offset + k] == number[k]
        modifies buffer
      {
        buffer[offset + i] := number[i];
        i := i + 1;
      }
      buffer[offset + i] := NUL;
      ShowsMore(done, number);
      ShowsMore(done + number, [NUL]);
    }

    // print_number; sprintf and sscanf are the functions of the number model.
    method PrintNumber(item: Node, ghost done: string) returns (ok: bool)
      requires Ready(done) && item.valueint == Saturate(item.valuedouble)
      modifies this`buffer, this`length, this`offset, buffer, mem
      ensures Kept(ok)
      ensures ok ==> Pending(done, NumeralText(PrintedNumeral(item.valuedouble)))
      ensures !ok ==> Refused(|done| + |NumeralText(PrintedNumeral(item.valuedouble))| + 2, old(mem.failures))
    {
      hide NumeralText, PrintedNumeral;
      var number := FormatNumber(item);
      PrintedIsShort(item.valuedouble);
      if |number| > MAX_PRINTED {
        return false;
      }
      ok := Ensure(|number| + 1, done);
      if !ok {
        return;
      }
      WriteNumber(number, done);
      offset := offset + |number|;
    }

    // ---- Strings ----

    // First pass of print_string_ptr.
    method CountEscapes(input: array<char>, ghost s: string) returns (size: nat, escapes: nat)
      requires Spells(input, s)
      ensures size == |s| && |EscapeText(s)| == size + escapes
      ensures escapes == 0 ==> EscapeText(s) == s
    {
      size, escapes := 0, 0;
      while input[size] != NUL
        invariant size <= |s| && |EscapeText(s[..size])| == size + escapes
        invariant escapes == 0 ==> EscapeText(s[..size]) == s[..size]
        decreases |s| - size
      {
        EscapeTextSnoc(s, size);
        var c := input[size];
        if c == QUOTE || c == BACKSLASH || c == BACKSPACE || c == FORM_FEED || c == '\n' || c == '\r' || c == '\t' {
          escapes := escapes + 1;
        } else if c < 32 as char {
          escapes := escapes + 5;
        }
        size := size + 1;
      }
      assert s[..size] == s;
    }

    // The body of the second pass for a character that needs escaping; `out` is the last
    // byte written. sprintf leaves a terminator behind a `\u` escape.
    method WriteEscape(c: char, start: nat) returns (out: nat)
      requires buffer != null && Bounded() && start + |EscapeChar(c)| < length && |EscapeChar(c)| > 1
      modifies buffer
      ensures Bounded() && out == start + |EscapeChar(c)| - 1
      ensures forall i | 0 <= i < start :: buffer[i] == old(buffer[i])
      ensures forall i | 0 <= i < |EscapeChar(c)| :: buffer[start + i] == EscapeChar(c)[i]
    {
      out := start;
      buffer[out] := BACKSLASH;
      out := out + 1;
      match c
      case '\\' => buffer[out] := BACKSLASH;
      case '\"' => buffer[out] := QUOTE;
      case '\n' => buffer[out] := 'n';
      case '\r' => buffer[out] := 'r';
      case '\t' => buffer[out] := 't';
      case _ =>
        if c == BACKSPACE {
          buffer[out] := 'b';
        } else if c == FORM_FEED {
          buffer[out] := 'f';
        } else {
          buffer[out], buffer[out + 1], buffer[out + 2] := 'u', '0', '0';
          buffer[out + 3], buffer[out + 4] := HexDigitOf(c as int / 16), HexDigitOf(c as int % 16);
          buffer[out + 5] := NUL;
          out := out + 4;
        }
    }

    // The body of the second pass.
    method WriteChar(c: char, start: nat, ghost before: string) returns (out: nat)
      requires Bounded() && Shows(before) && |before| == start && start + |EscapeChar(c)| < length
      modifies buffer
      ensures Bounded() && Shows(before + EscapeChar(c)) && out == start + |EscapeChar(c)|
    {
      out := start;
      if c > 31 as char && c != QUOTE && c != BACKSLASH {
        buffer[out] := c;
      } else {
        out := WriteEscape(c, out);
      }
      ShowsMore(before, EscapeChar(c));
      out := out + 1;
    }

    // Second pass: `size` is the length of the escaped text.
    method WriteEscaped(input: array<char>, size: nat, ghost s: string, ghost done: string)
      requires Ready(done) && Spells(input, s) && input != buffer
      requires size == |EscapeText(s)| && offset + size + 4 <= length
      modifies buffer
      ensures Pending(done, Quote(s)) && offset == |done|
    {
      hide Spells, EscapeText;
      ghost var lead := done + [QUOTE];
      buffer[offset] := QUOTE;
      ShowsMore(done, [QUOTE]);
      var i, out := 0, offset + 1;
      EscapeTextOfNothing();
      SpelledAt(input, s, 0);
      assert lead + "" == lead;
      while input[i] != NUL
        invariant i <= |s| && Spells(input, s)
        invariant i < input.Length && (input[i] == NUL <==> i == |s|)
        invariant Ready(done) && out == |lead| + |EscapeText(s[..i])| && offset + size + 4 <= length
        invariant |EscapeText(s[..i])| <= size
        invariant Shows(lead + EscapeText(s[..i]))
        decreases |s| - i
        modifies buffer
      {
        SpelledAt(input, s, i);
        SpelledAt(input, s, i + 1);
        EscapeTextSnoc(s, i);
        EscapeTextPrefix(s, i + 1);
        ghost var before := lead + EscapeText(s[..i]);
        out := WriteChar(input[i], out, before);
        assert before + EscapeChar(s[i]) == lead + EscapeText(s[..i + 1]);
        ShowsPart(done, [QUOTE] + EscapeText(s[..i + 1]));
        i := i + 1;
      }
      assert s[..i] == s;
      WriteEnd(size, s, done);
    }

    method WriteEnd(size: nat, ghost s: string, ghost done: string)
      requires Valid() && offset == |done| && Shows(done + [QUOTE] + EscapeText(s))
      requires size == |EscapeText(s)| && offset + size + 4 <= length
      modifies buffer
      ensures Pending(done, Quote(s)) && offset == |done|
    {
      ghost var body := done + [QUOTE] + EscapeText(s);
      buffer[offset + size + 1] := QUOTE;
      buffer[offset + size + 2] := NUL;
      ShowsMore(body, [QUOTE, NUL]);
      assert body + [QUOTE, NUL] == done + Quote(s) + [NUL];
    }

    // print_string_ptr.
    method PrintStringPtr(input: array?<char>, ghost s: string, ghost done: string) returns (ok: bool)
      requires Ready(done)
      requires if input == null then s == "" else Spells(input, s) && input in Others()
      modifies this`buffer, this`length, buffer, mem
      ensures Kept(ok)
      ensures ok ==> Pending(done, Quote(s)) && offset == |done|
      ensures !ok ==> Refused(|done| + |Quote(s)| + 2, old(mem.failures))
    {
      if input == null {
        ok := PrintWord("\"\"", done);
        assert Quote("") == "\"\"";
        return;
      }
      var size, escapes := CountEscapes(input, s);
      var outputLength := size + escapes;
      ok := Ensure(outputLength + 3, done);
      if !ok {
        return;
      }
      if escapes == 0 {
        WritePlain(input, outputLength, s, done);
      } else {
        WriteEscaped(input, outputLength, s, done);
      }
    }

    // No character has to be escaped: memcpy.
    method WritePlain(input: array<char>, size: nat, ghost s: string, ghost done: string)
      requires Ready(done) && Spells(input, s) && input != buffer && EscapeText(s) == s
      requires size == |s| && offset + size + 4 <= length
      modifies buffer
      ensures Pending(done, Quote(s)) && offset == |done|
    {
      buffer[offset] := QUOTE;
      forall i | 0 <= i < size {
        buffer[offset + 1 + i] := input[i];
      }
      ShowsMore(done, [QUOTE]);
      ShowsMore(done + [QUOTE], s);
      WriteEnd(size, s, done);
    }

    // ---- Values ----

    method PrintValue(item: Node, ghost sh: Shape, ghost done: string) returns (ok: bool)
      requires Ready(done) && Sound(sh) && sh.node == item && Blocks(sh) <= Others()
      modifies this, buffer, mem
      ensures Kept(ok)
      ensures ok ==> Pending(done, Render(ValueOf(sh), format, old(depth))) && depth == old(depth)
      ensures !ok ==> Refused(|done| + |Render(ValueOf(sh), format, old(depth))| + 2, old(mem.failures))
      decreases sh, 1
    {
      hide Sound, Blocks, Render, ValueOf, NumeralText, PrintedNumeral, EscapeText;
      LeafParts(sh, format, depth);
      match item.kind
      case KNull =>
        ok := PrintWord("null", done);
      case KFalse =>
        ok := PrintWord("false", done);
      case KTrue =>
        ok := PrintWord("true", done);
      case KNumber =>
        ok := PrintNumber(item, done);
      case KString =>
        ok := PrintStringPtr(item.valuestring, sh.data.text, done);
      case KArray =>
        ok := PrintArray(item, sh, done);
      case KObject =>
        ok := PrintObject(item, sh, done);
      case KInvalid =>
        ok := false;
    }

    // ---- Arrays ----

    method PrintArray(item: Node, ghost sh: Shape, ghost done: string) returns (ok: bool)
      requires Ready(done) && Sound(sh) && sh.node == item && sh.data.DArray? && Blocks(sh) <= Others()
      modifies this, buffer, mem
      ensures Kept(ok)
      ensures ok ==> Pending(done, Render(ValueOf(sh), format, old(depth))) && depth == old(depth)
      ensures !ok ==> Refused(|done| + |Render(ValueOf(sh), format, old(depth))| + 2, old(mem.failures))
      decreases sh, 0
    {
      hide Sound, SoundList, Blocks, BlocksOf, Render, RenderItems, ItemsOf, ValueOf, Shows, Bounded;
      ContainerParts(sh);
      SoundHasValue(sh);
      ArrayText(sh, format, depth);
      ghost var inner := RenderItems(ItemsOf(sh.kids), format, depth + 1);
      ok := OpenArray(done);
      if !ok {
        return;
      }
      ok := PrintElements(item.child, sh.kids, done + "[");
      if !ok {
        return;
      }
      assert done + "[" + inner == done + ("[" + inner);
      ok := PrintWord("]", done + ("[" + inner));
      if !ok {
        return;
      }
      PendingJoin(done, "[" + inner, "]");
      depth := depth - 1;
    }

    method OpenArray(ghost done: string) returns (ok: bool)
      requires Ready(done)
      modifies this, buffer, mem
      ensures Kept(ok)
      ensures ok ==> Ready(done + "[") && depth == old(depth) + 1
      ensures !ok ==> Refused(|done| + 2, old(mem.failures))
    {
      ok := Ensure(1, done);
      if !ok {
        return;
      }
      buffer[offset] := '[';
      ShowsMore(done, "[");
      offset := offset + 1;
      depth := depth + 1;
    }

    method PrintElements(child: Node?, ghost kids: seq<Shape>, ghost done: string) returns (ok: bool)
      requires Ready(done) && SoundList(kids) && child == First(kids) && BlocksOf(kids) <= Others()
      modifies this, buffer, mem
      ensures Kept(ok)
      ensures ok ==> Ready(done + RenderItems(ItemsOf(kids), format, old(depth))) && depth == old(depth)
      ensures !ok ==> Refused(|done| + |RenderItems(ItemsOf(kids), format, old(depth))| + 2, old(mem.failures))
      decreases kids, 1
    {
      hide SoundList, Blocks, BlocksOf, Render, RenderItems, Separator, ItemsOf, ValueOf, Shows, Bounded;
      SoundHaveValues(kids);
      ghost var items := ItemsOf(kids);
      var current := child;
      ghost var i, out := 0, done;
      ghost var d := depth;
      ghost var all := RenderItems(items, format, d);
      assert items[0..] == items;
      while current != null
        invariant i <= |kids| && current == NodeAt(kids, i)
        invariant Kept(true) && Ready(out) && depth == d && SoundList(kids)
        invariant done + all == out + RenderItems(items[i..], format, d)
        decreases |kids| - i
      {
        ItemsStep(items, i, format, d);
        NextSound(kids, i);
        ok := PrintElement(current, kids, i, out);
        if !ok {
          return;
        }
        out := out + Render(items[i], format, d) + Separator(i + 1 < |items|, format);
        current := current.next;
        i := i + 1;
      }
      ItemsEnd(items, i, format, d);
      assert out + "" == out;
      ok := true;
    }

    // The body of the loop of print_array.
    method PrintElement(current: Node, ghost kids: seq<Shape>, ghost i: nat, ghost done: string) returns (ok: bool)
      requires SoundList(kids) && i < |kids| && current == kids[i].node
      requires Ready(done) && BlocksOf(kids) <= Others()
      modifies this, buffer, mem
      ensures Kept(ok)
      ensures ok ==> Ready(done + Render(ItemsOf(kids)[i], format, old(depth)) + Separator(i + 1 < |kids|, format))
      ensures ok ==> depth == old(depth)
      ensures !ok ==>
                Refused(|done| + |Render(ItemsOf(kids)[i], format, old(depth)) + Separator(i + 1 < |kids|, format)| + 2,
                        old(mem.failures))
      decreases kids, 0
    {
      hide SoundList, Sound, Blocks, BlocksOf, Render, ItemsOf, ValueOf, Bounded;
      NextSound(kids, i);
      SoundHaveValues(kids);
      ghost var text := Render(ItemsOf(kids)[i], format, depth);
      RenderHasNoNul(ItemsOf(kids)[i], format, depth);
      ok := PrintValue(current, kids[i], done);
      if !ok {
        return;
      }
      UpdateOffset(done, text);
      NextSound(kids, i);
      if current.next != null {
        ok := PrintSeparator(done + text);
      }
    }

    method WriteSeparator(ghost done: string)
      requires Ready(done) && offset + |Separator(true, format)| + 2 <= length
      modifies buffer
      ensures Valid() && Shows(done + Separator(true, format))
    {
      var out := offset;
      buffer[out] := ',';
      out := out + 1;
      if format {
        buffer[out] := ' ';
        out := out + 1;
      }
      buffer[out] := NUL;
      ShowsMore(done, Separator(true, format));
    }

    method PrintSeparator(ghost done: string) returns (ok: bool)
      requires Ready(done)
      modifies this`buffer, this`length, this`offset, buffer, mem
      ensures Kept(ok)
      ensures ok ==> Ready(done + Separator(true, format))
      ensures !ok ==> Refused(|done| + |Separator(true, format)| + 2, old(mem.failures))
    {
      var size := if format then 2 else 1;
      ok := Ensure(size + 1, done);
      if !ok {
        return;
      }
      WriteSeparator(done);
      offset := offset + size;
    }

    // ---- Objects ----

    method PrintObject(item: Node, ghost sh: Shape, ghost done: string) returns (ok: bool)
      requires Ready(done) && Sound(sh) && sh.node == item && sh.data.DObject? && Blocks(sh) <= Others()
      modifies this, buffer, mem
      ensures Kept(ok)
      ensures ok ==> Pending(done, Render(ValueOf(sh), format, old(depth))) && depth == old(depth)
      ensures !ok ==> Refused(|done| + |Render(ValueOf(sh), format, old(depth))| + 2, old(mem.failures))
      decreases sh, 0
    {
      hide Sound, SoundList, Blocks, BlocksOf, Render, RenderMembers, MembersOf, ValueOf, Tabs, Shows, Bounded, Fmt;
      ContainerParts(sh);
      SoundHasValue(sh);
      ObjectText(sh, format, depth);
      ghost var open := "{" + Fmt(format, "\n");
      ghost var inner := RenderMembers(MembersOf(sh.kids), format, depth + 1);
      ok := OpenObject(done);
      if !ok {
        return;
      }
      ok := PrintMembers(item.child, sh.kids, done + open);
      if !ok {
        return;
      }
      assert done + open + inner == done + (open + inner);
      ok := CloseObject(done + (open + inner));
      if ok {
        PendingJoin(done, open + inner, Fmt(format, Tabs(depth)) + "}");
      }
    }

    method OpenObject(ghost done: string) returns (ok: bool)
      requires Ready(done)
      modifies this, buffer, mem
      ensures Kept(ok)
      ensures ok ==> Ready(done + ("{" + Fmt(format, "\n"))) && depth == old(depth) + 1
      ensures !ok ==> Refused(|done| + |"{" + Fmt(format, "\n")| + 2, old(mem.failures))
    {
      var size := if format then 2 else 1;
      ok := Ensure(size + 1, done);
      if !ok {
        return;
      }
      var out := offset;
      buffer[out] := '{';
      out := out + 1;
      depth := depth + 1;
      if format {
        buffer[out] := '\n';
        out := out + 1;
      }
      ShowsMore(done, "{" + Fmt(format, "\n"));
      offset := offset + size;
    }

    method PrintMembers(child: Node?, ghost kids: seq<Shape>, ghost done: string) returns (ok: bool)
      requires Ready(done) && SoundList(kids) && child == First(kids) && BlocksOf(kids) <= Others()
      modifies this, buffer, mem
      ensures Kept(ok)
      ensures ok ==> Ready(done + RenderMembers(MembersOf(kids), format, old(depth))) && depth == old(depth)
      ensures !ok ==> Refused(|done| + |RenderMembers(MembersOf(kids), format, old(depth))| + 2, old(mem.failures))
      decreases kids, 1
    {
      hide SoundList, Blocks, BlocksOf, Render, RenderMembers, MembersOf, ValueOf, RenderMember,
           Bounded;
      SoundHaveValues(kids);
      ghost var members := MembersOf(kids);
      var current := child;
      ghost var i, out := 0, done;
      ghost var d := depth;
      ghost var all := RenderMembers(members, format, d);
      assert members[0..] == members;
      while current != null
        invariant i <= |kids| && current == NodeAt(kids, i)
        invariant Kept(true) && Ready(out) && depth == d && SoundList(kids)
        invariant done + all == out + RenderMembers(members[i..], format, d)
        decreases |kids| - i
      {
        MembersStep(members, i, format, d);
        NextMember(kids, i);
        ok := PrintMember(current, kids, i, out);
        if !ok {
          return;
        }
        out := out + RenderMember(members[i], i + 1 < |members|, format, d);
        current := current.next;
        i := i + 1;
      }
      MembersEnd(members, i, format, d);
      assert out + "" == out;
      ok := true;
    }

    // The body of the loop of print_object.
    method PrintMember(current: Node, ghost kids: seq<Shape>, ghost i: nat, ghost done: string) returns (ok: bool)
      requires SoundList(kids) && i < |kids| && current == kids[i].node
      requires Ready(done) && BlocksOf(kids) <= Others()
      modifies this, buffer, mem
      ensures Kept(ok)
      ensures ok ==> Ready(done + RenderMember(MembersOf(kids)[i], i + 1 < |kids|, format, old(depth)))
      ensures ok ==> depth == old(depth)
      ensures !ok ==>
                Refused(|done| + |RenderMember(MembersOf(kids)[i], i + 1 < |kids|, format, old(depth))| + 2,
                        old(mem.failures))
      decreases kids, 0
    {
      hide SoundList, Sound, Blocks, BlocksOf, Render, MembersOf, ValueOf, RenderKey, MemberEnd,
           Bounded;
      NextMember(kids, i);
      SoundHaveValues(kids);
      ghost var m := MembersOf(kids)[i];
      ghost var key := RenderKey(m.key, format, depth);
      ghost var value := Render(m.value, format, depth);
      ok := PrintKey(current, kids[i], done);
      if !ok {
        return;
      }
      RenderHasNoNul(m.value, format, depth);
      ok := PrintValue(current, kids[i], done + key);
      if !ok {
        return;
      }
      UpdateOffset(done + key, value);
      NextMember(kids, i);
      ok := PrintMemberEnd(current.next != null, done + key + value);
      ghost var end := MemberEnd(i + 1 < |kids|, format);
      assert done + key + value + end == done + (key + value + end);
    }

    // The tabs, the key and the colon.
    method PrintKey(current: Node, ghost sh: Shape, ghost done: string) returns (ok: bool)
      requires Sound(sh) && current == sh.node && Ready(done) && Blocks(sh) <= Others()
      modifies this`buffer, this`length, this`offset, buffer, mem
      ensures Kept(ok)
      ensures ok ==> Ready(done + RenderKey(sh.name, format, depth))
      ensures !ok ==> Refused(|done| + |RenderKey(sh.name, format, depth)| + 2, old(mem.failures))
    {
      hide Sound, Blocks, EscapeText, Tabs, Quote, RenderKey, Shows, Bounded, Fmt;
      ghost var tabs := Fmt(format, Tabs(depth));
      ghost var rest := Quote(sh.name) + (":" + Fmt(format, "\t"));
      KeyText(sh.name, format, depth);
      ok := PrintTabs(done);
      if !ok {
        return;
      }
      ok := PrintName(current, sh, done + tabs);
      assert done + tabs + rest == done + (tabs + rest);
    }

    method PrintName(current: Node, ghost sh: Shape, ghost done: string) returns (ok: bool)
      requires Sound(sh) && current == sh.node && Ready(done) && Blocks(sh) <= Others()
      modifies this`buffer, this`length, this`offset, buffer, mem
      ensures Kept(ok)
      ensures ok ==> Ready(done + (Quote(sh.name) + (":" + Fmt(format, "\t"))))
      ensures !ok ==> Refused(|done| + |Quote(sh.name) + (":" + Fmt(format, "\t"))| + 2, old(mem.failures))
    {
      hide Sound, Blocks, EscapeText, Quote, Shows, Bounded, Fmt;
      ghost var quoted := Quote(sh.name);
      ghost var colon := ":" + Fmt(format, "\t");
      KeyParts(sh);
      QuoteHasNoNul(sh.name);
      ok := PrintStringPtr(current.key, sh.name, done);
      if !ok {
        return;
      }
      UpdateOffset(done, quoted);
      ok := PrintColon(done + quoted);
      assert done + quoted + colon == done + (quoted + colon);
    }

    method PrintTabs(ghost done: string) returns (ok: bool)
      requires Ready(done)
      modifies this`buffer, this`length, this`offset, buffer, mem
      ensures Kept(ok)
      ensures ok ==> Ready(done + Fmt(format, Tabs(depth)))
      ensures !ok ==> Refused(|done| + |Fmt(format, Tabs(depth))| + 2, old(mem.failures))
    {
      if !format {
        assert done + "" == done;
        return true;
      }
      ok := Ensure(depth, done);
      if !ok {
        return;
      }
      WriteTabs(depth, done);
      offset := offset + depth;
    }

    // `count` tabs behind the cursor.
    method WriteTabs(count: nat, ghost done: string)
      requires Ready(done) && offset + count <= length
      modifies buffer
      ensures Valid() && Shows(done + Tabs(count))
    {
      var i := 0;
      while i < count
        invariant i <= count && Ready(done)
        invariant forall k | |done| <= k < |done| + i :: buffer[k] == '\t'
      {
        buffer[offset + i] := '\t';
        i := i + 1;
      }
      ShowsMore(done, Tabs(count));
    }

    method PrintColon(ghost done: string) returns (ok: bool)
      requires Ready(done)
      modifies this`buffer, this`length, this`offset, buffer, mem
      ensures Kept(ok)
      ensures ok ==> Ready(done + (":" + Fmt(format, "\t")))
      ensures !ok ==> Refused(|done| + |":" + Fmt(format, "\t")| + 2, old(mem.failures))
    {
      var size := if format then 2 else 1;
      ok := Ensure(size, done);
      if !ok {
        return;
      }
      var out := offset;
      buffer[out] := ':';
      out := out + 1;
      if format {
        buffer[out] := '\t';
        out := out + 1;
      }
      ShowsMore(done, ":" + Fmt(format, "\t"));
      offset := offset + size;
    }

    method WriteMemberEnd(more: bool, ghost done: string)
      requires Ready(done) && offset + |MemberEnd(more, format)| + 2 <= length
      modifies buffer
      ensures Valid() && Shows(done + MemberEnd(more, format))
    {
      var out := offset;
      if more {
        buffer[out] := ',';
        out := out + 1;
      }
      if format {
        buffer[out] := '\n';
        out := out + 1;
      }
      buffer[out] := NUL;
      ShowsMore(done, MemberEnd(more, format));
    }

    method PrintMemberEnd(more: bool, ghost done: string) returns (ok: bool)
      requires Ready(done)
      modifies this`buffer, this`length, this`offset, buffer, mem
      ensures Kept(ok)
      ensures ok ==> Ready(done + MemberEnd(more, format))
      ensures !ok ==> Refused(|done| + |MemberEnd(more, format)| + 2, old(mem.failures))
    {
      var size := (if format then 1 else 0) + (if more then 1 else 0);
      ok := Ensure(size + 1, done);
      if !ok {
        return;
      }
      WriteMemberEnd(more, done);
      offset := offset + size;
    }

    method CloseObject(ghost done: string) returns (ok: bool)
      requires Ready(done) && depth > 0
      modifies this, buffer, mem
      ensures Kept(ok)
      ensures ok ==> Pending(done, Fmt(format, Tabs(old(depth) - 1)) + "}") && depth == old(depth) - 1
      ensures !ok ==> Refused(|done| + |Fmt(format, Tabs(old(depth) - 1)) + "}"| + 2, old(mem.failures))
    {
      ok := Ensure(if format then depth + 1 else 2, done);
      if !ok {
        return;
      }
      var tabs := if format then depth - 1 else 0;
      WriteTabs(tabs, done);
      WriteBrace(tabs, done);
      assert Tabs(tabs) == Fmt(format, Tabs(depth - 1));
      depth := depth - 1;
    }

    method WriteBrace(tabs: nat, ghost done: string)
      requires Valid() && offset == |done| && Shows(done + Tabs(tabs)) && offset + tabs + 3 <= length
      modifies buffer
      ensures Pending(done, Tabs(tabs) + "}")
    {
      hide Tabs;
      buffer[offset + tabs] := '}';
      buffer[offset + tabs + 1] := NUL;
      ShowsMore(done + Tabs(tabs), ['}', NUL]);
      assert done + Tabs(tabs) + ['}', NUL] == done + (Tabs(tabs) + "}") + [NUL];
    }
  }

  // cJSON_Print and cJSON_PrintUnformatted: a fresh block of just the right size, unless an
  // allocation fails or the text is too long for an int. A failure leaks nothing.
  method Print(item: Node?, format: bool, mem: Allocator, ghost sh: Shape) returns (printed: array?<char>)
    requires mem !in mem.live && (item != null ==> Sound(sh) && sh.node == item && Blocks(sh) <= mem.live)
    modifies mem
    ensures printed == null ==>
              item == null || mem.failures > old(mem.failures) || |Render(ValueOf(sh), format, 0)| + 2 > INT_MAX
    ensures printed == null ==> mem.live == old(mem.live)
    ensures printed != null ==> item != null && |Render(ValueOf(sh), format, 0)| + 2 <= INT_MAX
    ensures printed != null ==> mem.failures == old(mem.failures)
    ensures printed != null ==> fresh(printed) && mem.live == old(mem.live) + {printed}
    ensures printed != null ==> printed[..] == Render(ValueOf(sh), format, 0) + [NUL]
    ensures printed != null ==>
              var text := printed[..printed.Length - 1];
              if format then Formatted(text, "") else Unspaced(text)
  {
    hide Sound, Blocks, Render, ValueOf, Formatted, Unspaced;
    var buffer := mem.NewString(256);
    if buffer == null {
      return null;
    }
    var p := new PrintBuffer(buffer, 256, false, format, mem);
    var ok := false;
    if item != null {
      SoundHasValue(sh);
      assert Blocks(sh) <= p.Others();
      ok := p.PrintValue(item, sh, "");
    }
    if ok {
      ghost var text := Render(ValueOf(sh), format, 0);
      RenderHasNoNul(ValueOf(sh), format, 0);
      p.UpdateOffset("", text);
      printed := mem.Resize(p.buffer, p.offset + 1);
      if printed != null {
        assert printed[..] == text + [NUL] && printed[..printed.Length - 1] == text;
        PrintedIsFormatted(ValueOf(sh));
        PrintedIsUnspaced(ValueOf(sh));
        return;
      }
    }
    if p.buffer != null {
      mem.Release(p.buffer);
    }
    printed := null;
  }

  // cJSON_PrintBuffered.
  method PrintBuffered(item: Node?, prebuffer: int, format: bool, mem: Allocator, ghost sh: Shape)
    returns (printed: array?<char>)
    requires mem !in mem.live && (item != null ==> Sound(sh) && sh.node == item && Blocks(sh) <= mem.live)
    requires prebuffer <= INT_MAX
    modifies mem
    ensures printed == null ==>
              || item == null || prebuffer < 0 || mem.failures > old(mem.failures)
              || |Render(ValueOf(sh), format, 0)| + 2 > INT_MAX
    ensures printed == null ==> mem.live == old(mem.live)
    ensures printed != null ==> item != null && |Render(ValueOf(sh), format, 0)| + 2 <= INT_MAX
    ensures printed != null ==> mem.failures == old(mem.failures)
    ensures printed != null ==> fresh(printed) && mem.live == old(mem.live) + {printed}
    ensures printed != null ==> Spells(printed, Render(ValueOf(sh), format, 0))
  {
    hide Sound, Blocks, Render, ValueOf;
    if prebuffer < 0 {
      return null;
    }
    var buffer := mem.NewString(prebuffer);
    if buffer == null {
      return null;
    }
    var p := new PrintBuffer(buffer, prebuffer, false, format, mem);
    var ok := false;
    if item != null {
      SoundHasValue(sh);
      assert Blocks(sh) <= p.Others();
      ok := p.PrintValue(item, sh, "");
    }
    if !ok {
      if p.buffer != null {
        mem.Release(p.buffer);
      }
      return null;
    }
    RenderHasNoNul(ValueOf(sh), format, 0);
    p.Spelled(Render(ValueOf(sh), format, 0));
    printed := p.buffer;
  }

  // cJSON_PrintPreallocated: it succeeds if and only if the length given is at least that
  // of the rendering plus two.
  method PrintPreallocated(item: Node?, buffer: array?<char>, length: int, format: bool, mem: Allocator,
        ghost sh: Shape)
    returns (ok: bool)
    requires mem !in mem.live
    requires item != null ==> Sound(sh) && sh.node == item && Blocks(sh) <= mem.live && buffer !in Blocks(sh)
    requires length <= INT_MAX && (buffer != null ==> length <= buffer.Length)
    modifies buffer, mem
    ensures ok <==> item != null && buffer != null && length >= |Render(ValueOf(sh), format, 0)| + 2
    ensures ok ==> Spells(buffer, Render(ValueOf(sh), format, 0))
    ensures buffer != null ==> forall i | length <= i && 0 <= i < buffer.Length :: buffer[i] == old(buffer[i])
    ensures mem.live == old(mem.live)
  {
    hide Sound, Blocks, Render, ValueOf;
    if length < 0 || buffer == null {
      return false;
    }
    var p := new PrintBuffer(buffer, length, true, format, mem);
    ok := false;
    if item != null {
      SoundHasValue(sh);
      ok := p.PrintValue(item, sh, "");
    }
    if ok {
      RenderHasNoNul(ValueOf(sh), format, 0);
      p.Spelled(Render(ValueOf(sh), format, 0));
    }
    forall i | length <= i < buffer.Length
      ensures buffer[i] == old(buffer[i])
    {
      assert buffer[length..][i - length] == p.tail[i - length] == old(buffer[i]);
    }
  }
}
