/**
 cJSON_Minify as it runs: a read cursor `json` and a write cursor `into` on one buffer.
 */
module MinifyInPlace {
  import opened CText
  import opened StringLiteral
  import opened MinifySpec

  // `original` is a C string with text `text`.
  ghost predicate CBuffer(original: string, text: string) {
    && |text| < |original| && original[|text|] == NUL
    && forall i | 0 <= i < |text| :: original[i] == text[i] && text[i] != NUL
  }

  // The buffer between two steps: `written` in front, behind it the original; the write
  // cursor has not passed the read cursor.
  ghost predicate Between(a: array<char>, original: string, written: string, json: nat)
    reads a
  {
    && |written| <= json < a.Length == |original|
    && (forall i | 0 <= i < |written| :: a[i] == written[i])
    && (forall i | |written| <= i < a.Length :: a[i] == original[i])
  }

  lemma StripAt(t: string, j: nat)
    requires j < |t|
    ensures Strip(t[j..]) ==
            if Space(t[j]) then Strip(t[j + 1..])
            else if t[j] == '/' then Strip(AfterSlash(t[j..]))
            else if t[j] == QUOTE then [QUOTE] + InString(t[j + 1..])
            else [t[j]] + Strip(t[j + 1..])
  {
    assert t[j..][1..] == t[j + 1..];
  }

  lemma InStringAt(t: string, j: nat)
    requires j < |t|
    ensures InString(t[j..]) ==
            if t[j] == QUOTE then [QUOTE] + Strip(t[j + 1..])
            else if t[j] == BACKSLASH && j + 1 < |t| && t[j + 1] == QUOTE then [BACKSLASH, QUOTE] + InString(t[j + 2..])
            else [t[j]] + InString(t[j + 1..])
  {
    assert t[j..][1..] == t[j + 1..];
    if j + 1 < |t| {
      assert t[j..][2..] == t[j + 2..];
    }
  }

  lemma AfterLineAt(t: string, j: nat)
    requires j < |t|
    ensures AfterLine(t[j..]) == if t[j] == '\n' then t[j + 1..] else AfterLine(t[j + 1..])
  {
    assert t[j..][1..] == t[j + 1..];
  }

  lemma AfterBlockAt(t: string, j: nat)
    requires j < |t|
    ensures AfterBlock(t[j..]) ==
            if j + 1 < |t| && t[j] == '*' && t[j + 1] == '/' then t[j + 2..] else AfterBlock(t[j + 1..])
  {
    assert t[j..][1..] == t[j + 1..];
    if j + 1 < |t| {
      assert t[j..][2..] == t[j + 2..];
    }
  }

  lemma AfterSlashAt(t: string, j: nat)
    requires j < |t| && t[j] == '/'
    ensures AfterSlash(t[j..]) ==
            if j + 1 < |t| && t[j + 1] == '/' then AfterLine(t[j + 2..])
            else if j + 1 < |t| && t[j + 1] == '*' then AfterBlock(t[j + 2..])
            else t[j + 1..]
  {
    assert t[j..][1..] == t[j + 1..];
    if j + 1 < |t| {
      assert t[j..][2..] == t[j + 2..];
    }
  }

  lemma NothingLeft(t: string)
    ensures t[|t|..] == "" && Strip("") == "" && InString("") == "" && AfterLine("") == "" && AfterBlock("") == ""
  {
  }

  // skip_oneline_comment, called on `//`.
  method SkipOnelineComment(a: array<char>, input: nat,
        ghost original: string, ghost text: string, ghost written: string)
    returns (next: nat)
    requires CBuffer(original, text) && Between(a, original, written, input) && input + 2 <= |text|
    ensures input + 2 <= next <= |text| && text[next..] == AfterLine(text[input + 2..])
  {
    hide AfterLine;
    next := input + 2;
    while a[next] != NUL
      invariant input + 2 <= next <= |text|
      invariant AfterLine(text[next..]) == AfterLine(text[input + 2..])
      decreases |text| - next
    {
      AfterLineAt(text, next);
      if a[next] == '\n' {
        next := next + 1;
        return;
      }
      next := next + 1;
    }
    NothingLeft(text);
  }

  // skip_multiline_comment, called on the two bytes that open a block comment.
  method SkipMultilineComment(a: array<char>, input: nat,
        ghost original: string, ghost text: string, ghost written: string)
    returns (next: nat)
    requires CBuffer(original, text) && Between(a, original, written, input) && input + 2 <= |text|
    ensures input + 2 <= next <= |text| && text[next..] == AfterBlock(text[input + 2..])
  {
    hide AfterBlock;
    next := input + 2;
    while a[next] != NUL
      invariant input + 2 <= next <= |text|
      invariant AfterBlock(text[next..]) == AfterBlock(text[input + 2..])
      decreases |text| - next
    {
      AfterBlockAt(text, next);
      if a[next] == '*' && a[next + 1] == '/' {
        next := next + 2;
        return;
      }
      next := next + 1;
    }
    NothingLeft(text);
  }

  // One byte moves from the read to the write cursor.
  method CopyByte(a: array<char>, json: nat, into: nat, ghost original: string, ghost written: string)
    requires Between(a, original, written, json) && into == |written| && json + 1 < a.Length
    modifies a
    ensures Between(a, original, written + [original[json]], json + 1)
  {
    a[into] := a[json];
  }

  lemma Appended(a: string, b: string, c: string)
    ensures a + (b + c) == (a + b) + c
  {
  }

  lemma InStringStep(text: string, j: nat, written: string, total: string)
    requires j < |text| && total == written + InString(text[j..])
    ensures if text[j] == QUOTE then total == written + [QUOTE] + Strip(text[j + 1..])
            else if text[j] == BACKSLASH && j + 1 < |text| && text[j + 1] == QUOTE
            then total == written + [BACKSLASH] + [QUOTE] + InString(text[j + 2..])
            else total == written + [text[j]] + InString(text[j + 1..])
  {
    hide Strip, InString;
    InStringAt(text, j);
  }

  // minify_string, called on an opening quote. `total` is the whole result.
  method MinifyString(a: array<char>, input: nat, output: nat,
                      ghost original: string, ghost text: string, ghost before: string, ghost total: string)
    returns (json: nat, into: nat, ghost written: string)
    requires CBuffer(original, text) && Between(a, original, before, input) && output == |before|
    requires input < |text| && text[input] == QUOTE
    requires total == before + Strip(text[input..])
    modifies a
    ensures input < json <= |text| && Between(a, original, written, json) && into == |written|
    ensures total == written + Strip(text[json..])
  {
    hide Strip, InString;
    json, into := input, output;
    StripAt(text, input);
    Appended(before, [QUOTE], InString(text[json + 1..]));
    CopyByte(a, json, into, original, before);
    json, into, written := json + 1, into + 1, before + [QUOTE];
    while a[json] != NUL
      invariant input < json <= |text| && into == |written|
      invariant Between(a, original, written, json)
      invariant total == written + InString(text[json..])
      decreases |text| - json
    {
      InStringStep(text, json, written, total);
      if a[json] == QUOTE {
        CopyByte(a, json, into, original, written);
        json, into, written := json + 1, into + 1, written + [QUOTE];
        return;
      } else if a[json] == BACKSLASH && a[json + 1] == QUOTE {
        CopyByte(a, json, into, original, written);
        json, into, written := json + 1, into + 1, written + [BACKSLASH];
      }
      CopyByte(a, json, into, original, written);
      json, into, written := json + 1, into + 1, written + [text[json]];
    }
    NothingLeft(text);
  }

  // The buffer ends up holding the stripped text and a terminator; the bytes behind it are
  // those that were there.
  method Minify(a: array<char>)
    requires NUL in a[..]
    modifies a
    ensures var r := Strip(CString(old(a[..])));
            |r| < a.Length && a[..] == r + [NUL] + old(a[..])[|r| + 1..]
  {
    hide Strip, InString, AfterSlash, AfterLine, AfterBlock, CString;
    var json, into := 0, 0;
    ghost var original := a[..];
    ghost var text := CString(original);
    ghost var written := "";
    TextOf(original);
    assert text[0..] == text && written + Strip(text) == Strip(text);
    while a[json] != NUL
      invariant json <= |text| && into == |written|
      invariant Between(a, original, written, json)
      invariant Strip(text) == written + Strip(text[json..])
      decreases |text| - json
    {
      StripAt(text, json);
      if a[json] == ' ' || a[json] == '\t' || a[json] == '\r' || a[json] == '\n' {
        json := json + 1;
      } else if a[json] == '/' {
        AfterSlashAt(text, json);
        if a[json + 1] == '/' {
          json := SkipOnelineComment(a, json, original, text, written);
        } else if a[json + 1] == '*' {
          json := SkipMultilineComment(a, json, original, text, written);
        } else {
          json := json + 1;
        }
      } else if a[json] == QUOTE {
        json, into, written := MinifyString(a, json, into, original, text, written, Strip(text));
      } else {
        Appended(written, [text[json]], Strip(text[json + 1..]));
        CopyByte(a, json, into, original, written);
        json, into, written := json + 1, into + 1, written + [text[json]];
      }
    }
    NothingLeft(text);
    assert written == Strip(text);
    a[into] := NUL;
  }

  lemma TextOf(buffer: string)
    requires NUL in buffer
    ensures CBuffer(buffer, CString(buffer))
  {
    var t := CString(buffer);
    assert forall i | 0 <= i < |t| :: t[i] in t;
  }
}
