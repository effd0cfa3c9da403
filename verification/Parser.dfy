/**
 The parser as it runs: a cursor moved over the buffer, nodes and strings allocated on the
 way, everything freed again on failure.
 */
module Parser {
  import opened CText
  import opened Bits
  import opened Utf
  import opened StringLiteral
  import opened EscapeTables
  import opened Numbers
  import opened JsonValue
  import opened Grammar
  import opened Nodes
  import opened ParserStrings
  import P = ParserSpec
  import T = ParserTheorems
  import D = Document

  // The tree denotes the meaning of the syntax tree.
  ghost predicate Denotes(sh: Shape, tree: Cst) {
    Valued(sh) && Accepted(tree) && ValueOf(sh) == Meaning(tree)
  }

  // `sh` completes the node `own` describes and keeps its key.
  ghost predicate Filled(own: Shape, sh: Shape)
    reads Blocks(sh)
  {
    sh.node == own.node && sh.key == own.key && sh.name == own.name && Wired(sh) && Separate(sh)
  }

  ghost predicate ListOf(kids: seq<Shape>, head: Node?, current: Node?)
    reads BlocksOf(kids)
  {
    Chain(kids) && SeparateAll(kids) && head == First(kids) && current == NodeAt(kids, |kids| - 1)
  }

  // `item` is linked behind the last node of the list.
  ghost predicate Behind(kids: seq<Shape>, item: Node)
    reads item`next, item`prev
  {
    item.next == null && (kids != [] ==> item.prev == kids[|kids| - 1].node)
  }

  ghost predicate ElementsDenote(kids: seq<Shape>, es: seq<Element>) {
    |kids| == |es| && forall i | 0 <= i < |kids| :: Denotes(kids[i], es[i].value)
  }

  ghost predicate MemberDenotes(sh: Shape, e: Entry) {
    GoodBody(e.key) && sh.name == BodyMeaning(e.key) && Denotes(sh, e.value)
  }

  ghost predicate EntriesDenote(kids: seq<Shape>, es: seq<Entry>) {
    |kids| == |es| && forall i | 0 <= i < |kids| :: MemberDenotes(kids[i], es[i])
  }

  ghost predicate SameValues(a: seq<Element>, b: seq<Element>) {
    |a| == |b| && forall i | 0 <= i < |a| :: a[i].value == b[i].value
  }

  ghost predicate SameEntries(a: seq<Entry>, b: seq<Entry>) {
    |a| == |b| && forall i | 0 <= i < |a| :: a[i].value == b[i].value && a[i].key == b[i].key
  }

  function Prepend(es: seq<Element>, r: P.ElementsParse): P.ElementsParse {
    if r.NoElements? then P.NoElements else P.Elements(es + r.elements, r.rest)
  }

  function PrependEntries(es: seq<Entry>, r: P.EntriesParse): P.EntriesParse {
    if r.NoEntries? then P.NoEntries else P.Entries(es + r.entries, r.rest)
  }

  // The bytes of a C string with its terminator.
  function Buffer(text: string): (t: string)
    ensures Terminated(t) && |t| == |text| + 1
  {
    text + [NUL]
  }

  // ---- The buffer ----

  // The string literal at position `o` of the buffer.
  lemma QuotedAt(s: string, o: nat)
    requires o < |s|
    ensures s[o] != QUOTE ==> P.ParseQuoted(s[o..]).NoString?
    ensures var n := CloseAt(s[o + 1..]);
            s[o] == QUOTE ==>
              if n < 0 || Decode(s[o + 1..o + 1 + n]).None? then P.ParseQuoted(s[o..]).NoString?
              else P.ParseQuoted(s[o..]) == P.GotString(s[o + 1..o + 1 + n], s[o + n + 2..])
                   && GoodBody(s[o + 1..o + 1 + n])
  {
    hide Decode, CloseAt, Closed;
    var t := s[o..];
    assert t[1..] == s[o + 1..];
    var n := CloseAt(t[1..]);
    if t[0] == QUOTE && n >= 0 {
      assert t[1..n + 1] == s[o + 1..o + 1 + n] && t[n + 2..] == s[o + n + 2..];
      assert t[1..][..n] == t[1..n + 1];
    }
  }

  // C code sees decoded text up to its first NUL.
  lemma SpellsDecoded(output: array<char>, text: string)
    requires |text| < output.Length && output[|text|] == NUL && forall i | 0 <= i < |text| :: output[i] == text[i]
    ensures Spells(output, CString(text))
  {
    var c := CString(text);
    assert forall i | 0 <= i < |c| :: c[i] in c && c[i] == text[i];
  }

  lemma NotTheLast(s: string, o: nat)
    requires Terminated(s) && o < |s|
    ensures s[o] != NUL ==> o < |s| - 1
  {
  }

  lemma FirstByte(s: string, o: nat)
    requires o < |s|
    ensures s[o..][0] == s[o]
  {
  }

  // Keywords at position `o` of the buffer.
  lemma Word(s: string, o: nat)
    requires o < |s| && Terminated(s)
    ensures var t := s[o..];
            && (P.ReadsNull(t) <==> o + 4 <= |s| && s[o..o + 4] == "null")
            && (P.ReadsFalse(t) <==> o + 5 <= |s| && s[o..o + 5] == "false")
            && (P.ReadsTrue(t) <==> o + 4 <= |s| && s[o..o + 4] == "true")
            && (P.ReadsNull(t) || P.ReadsTrue(t) ==> o + 4 < |s| && t[4..] == s[o + 4..])
            && (P.ReadsFalse(t) ==> o + 5 < |s| && t[5..] == s[o + 5..])
  {
    if o + 4 <= |s| {
      var w := s[o..o + 4];
      assert w[0] == s[o] && w[1] == s[o + 1] && w[2] == s[o + 2] && w[3] == s[o + 3];
    }
    if o + 5 <= |s| {
      var w := s[o..o + 5];
      assert w[0] == s[o] && w[1] == s[o + 1] && w[2] == s[o + 2] && w[3] == s[o + 3] && w[4] == s[o + 4];
    }
  }

  lemma KeywordValue(t: string, depth: nat)
    requires Terminated(t) && depth <= NESTING_LIMIT
    ensures P.ReadsNull(t) ==> P.ParseValue(t, depth) == P.Ok(LNull, t[4..])
    ensures P.ReadsFalse(t) ==> P.ParseValue(t, depth) == P.Ok(LFalse, t[5..])
    ensures P.ReadsTrue(t) ==> P.ParseValue(t, depth) == P.Ok(LTrue, t[4..])
  {
  }

  // ---- Nodes and lists under construction ----

  lemma LiveBlocks(sh: Shape, mem: Allocator)
    requires Blocks(sh) <= mem.live && mem !in mem.live
    ensures mem !in Blocks(sh)
  {
  }

  lemma LeafBlocks(sh: Shape)
    requires sh.kids == []
    ensures Blocks(sh) == {sh.node} + Optional(sh.key) + Optional(sh.text)
  {
    assert BlocksOf([]) == {};
  }

  lemma OwnIsSmall(own: Shape)
    requires own.text == null && own.kids == []
    ensures Blocks(own) == {own.node} + Optional(own.key)
  {
    assert BlocksOf([]) == {};
  }

  lemma UnfilledParts(item: Node, own: Shape)
    requires Unfilled(item, own)
    ensures own.node == item && own.text == null && own.kids == [] && Labelled(own) && item.child == null
  {
  }

  lemma UnfilledIsWired(item: Node, own: Shape)
    requires Unfilled(item, own)
    ensures Wired(own) && Separate(own) && own.node == item && Filled(own, own)
  {
  }

  lemma FilledKeeps(own: Shape, sh: Shape)
    requires own.text == null && own.kids == [] && Filled(own, sh)
    ensures Blocks(own) <= Blocks(sh)
  {
    OwnIsSmall(own);
  }

  lemma FilledRoot(own: Shape, sh: Shape)
    requires Filled(own, sh)
    ensures sh.node == own.node && Wired(sh) && Separate(sh) && sh.key == own.key
  {
  }

  lemma SameSeparate(own: Shape, sh: Shape)
    requires Separate(own) && sh == own.(data := sh.data)
    ensures Separate(sh)
  {
  }

  // A list whose last node has been filled in.
  lemma Refilled(kids: seq<Shape>, sh: Shape)
    requires Open(kids, sh.node) && SeparateAll(kids) && Wired(sh) && Separate(sh) && Blocks(sh) !! BlocksOf(kids)
    requires Behind(kids, sh.node)
    ensures ListOf(kids + [sh], First(kids + [sh]), sh.node)
    ensures BlocksOf(kids + [sh]) == BlocksOf(kids) + Blocks(sh)
    ensures forall other: Shape | other.node == sh.node :: First(kids + [other]) == First(kids + [sh])
  {
    hide Wired, Blocks, BlocksOf, Separate, SeparateAll, Open, Chain;
    ChainSnoc(kids, sh);
    SeparateSnoc(kids, sh);
    BlocksAppend(kids, sh);
  }

  lemma ConstantDenotes(sh: Shape)
    ensures sh.data == DNull ==> Denotes(sh, LNull)
    ensures sh.data == DFalse ==> Denotes(sh, LFalse)
    ensures sh.data == DTrue ==> Denotes(sh, LTrue)
  {
  }

  lemma FinishedContainer(own: Shape, sh: Shape)
    requires own.text == null && own.kids == []
    requires sh == own.(data := sh.data, kids := sh.kids) && (sh.data == DArray || sh.data == DObject)
    requires sh.node.child == First(sh.kids) && WiredList(sh.kids) && SeparateAll(sh.kids)
    requires Labelled(own) && (sh.node.kind == if sh.data == DArray then KArray else KObject)
    requires own.data == DInvalid && Blocks(own) !! BlocksOf(sh.kids)
    ensures Filled(own, sh) && Blocks(sh) == Blocks(own) + BlocksOf(sh.kids)
  {
    OwnIsSmall(own);
  }

  lemma NoList()
    ensures ListOf([], null, null) && BlocksOf([]) == {} && ElementsDenote([], []) && EntriesDenote([], [])
  {
  }

  lemma CurrentIsListed(kids: seq<Shape>, head: Node?, current: Node?)
    requires ListOf(kids, head, current)
    ensures current != null ==> current in BlocksOf(kids)
  {
  }

  lemma HeadIsListed(kids: seq<Shape>, head: Node?, current: Node?)
    requires ListOf(kids, head, current)
    ensures head != null ==> head in BlocksOf(kids)
  {
  }

  lemma ListIsSeparate(kids: seq<Shape>, head: Node?, current: Node?)
    requires ListOf(kids, head, current)
    ensures SeparateAll(kids)
  {
  }

  lemma ListApartFrom(kids: seq<Shape>, mem: Allocator)
    requires BlocksOf(kids) <= mem.live && mem !in mem.live
    ensures mem !in BlocksOf(kids)
  {
  }

  // current_item->string = current_item->valuestring; current_item->valuestring = NULL
  method TakeName(item: Node, ghost own: Shape, ghost sh: Shape) returns (ghost named: Shape)
    requires own == Shape(item, null, "", null, DInvalid, [])
    requires sh.data.DString? && sh == own.(text := sh.text, data := sh.data) && sh.text != null && Wired(sh)
    modifies item
    ensures named == own.(key := sh.text, name := sh.data.text) && Unfilled(item, named)
    ensures item.next == old(item.next) && item.prev == old(item.prev)
  {
    item.key := item.valuestring;
    item.valuestring := null;
    named := own.(key := sh.text, name := sh.data.text);
  }

  // Give a node its decoded string.
  method SetString(item: Node, output: array<char>, ghost text: string, ghost own: Shape) returns (ghost sh: Shape)
    requires Unfilled(item, own) && output !in Blocks(own)
    requires |text| < output.Length && output[|text|] == NUL && forall i | 0 <= i < |text| :: output[i] == text[i]
    modifies item
    ensures sh == own.(text := output, data := DString(CString(text)))
    ensures Wired(sh) && Separate(sh) && Blocks(sh) == Blocks(own) + {output}
    ensures item.next == old(item.next) && item.prev == old(item.prev)
  {
    item.kind := KString;
    item.valuestring := output;
    sh := own.(text := output, data := DString(CString(text)));
    SpellsDecoded(output, text);
  }

  method SetConstant(item: Node, kind: Kind, ghost own: Shape) returns (ghost sh: Shape)
    requires Unfilled(item, own) && (kind == KNull || kind == KFalse || kind == KTrue)
    modifies item
    ensures sh == own.(data := if kind == KNull then DNull else if kind == KFalse then DFalse else DTrue)
    ensures Filled(own, sh) && Blocks(sh) == Blocks(own) && (kind == KTrue ==> item.valueint == 1)
    ensures item.next == old(item.next) && item.prev == old(item.prev)
  {
    item.kind := kind;
    if kind == KTrue {
      item.valueint := 1;
    }
    sh := own.(data := if kind == KNull then DNull else if kind == KFalse then DFalse else DTrue);
  }

  // `cJSON_Delete(head)` at the label `fail`.
  method DeleteList(head: Node?, current: Node?, mem: Allocator, ghost kids: seq<Shape>)
    requires ListOf(kids, head, current) && BlocksOf(kids) <= mem.live && mem !in BlocksOf(kids)
    modifies mem
    ensures mem.live == old(mem.live) - BlocksOf(kids) && mem.failures == old(mem.failures)
  {
    hide Wired, Owned, Blocks, BlocksOf;
    ChainIsOwned(kids);
    if head != null {
      Delete(head, mem, kids);
    } else {
      assert kids == [] && BlocksOf([]) == {} by { NoList(); }
    }
  }

  // The label `success`: the list is closed and becomes the children of the node.
  method Finish(item: Node, kind: Kind, head: Node?, current: Node?, ghost own: Shape, ghost kids: seq<Shape>)
    returns (ghost sh: Shape)
    requires Unfilled(item, own) && ListOf(kids, head, current) && Blocks(own) !! BlocksOf(kids)
    requires kind == KArray || kind == KObject
    modifies item, if head == null then {} else {head}
    ensures sh == own.(data := if kind == KArray then DArray else DObject, kids := kids)
    ensures Filled(own, sh) && Blocks(sh) == Blocks(own) + BlocksOf(kids)
    ensures item.next == old(item.next) && item.prev == old(item.prev)
  {
    hide Wired, WiredList, Blocks, BlocksOf, Separate, SeparateAll, Chain;
    CurrentIsListed(kids, head, current);
    OwnIsSmall(own);
    UnfilledParts(item, own);
    CloseList(head, current, kids);
    sh := own.(data := if kind == KArray then DArray else DObject, kids := kids);
    item.kind := kind;
    item.child := head;
    FinishedContainer(own, sh);
  }

  // ---- Arrays ----

  lemma ElementParts(t: string, depth: nat)
    requires Terminated(t) && depth <= NESTING_LIMIT
    ensures var r := P.ParseElement(t, depth);
            var v := P.ParseValue(P.SkipBlanks(t), depth);
            && (v.Fail? ==> r.NoElement?)
            && (v.Ok? ==> r.GotElement? && r.element.value == v.tree && r.rest == P.SkipBlanks(v.rest))
  {
    hide P.ParseValue, P.SkipBlanks, P.Skipped;
  }

  lemma {:induction false} SkipTwice(t: string)
    requires t != ""
    ensures P.SkipBlanks(P.SkipBlanks(t)) == P.SkipBlanks(t)
  {
  }

  // Blanks in front of the first element do not matter to the loop.
  lemma BlanksBeforeElements(t: string, d: nat)
    requires Terminated(t) && d <= NESTING_LIMIT
    ensures var r, q := P.ParseElements(t, d), P.ParseElements(P.SkipBlanks(t), d);
            && (q.NoElements? ==> r.NoElements?)
            && (q.Elements? ==> r.Elements? && r.rest == q.rest && |r.elements| == |q.elements|
                                && forall i | 0 <= i < |q.elements| :: r.elements[i].value == q.elements[i].value)
  {
    hide P.ParseValue, P.SkipBlanks, P.Skipped;
    SkipTwice(t);
  }

  // parse_array in terms of what stands behind the blanks after the bracket.
  lemma ArrayParts(t: string, depth: nat)
    requires Terminated(t) && t[0] == '[' && depth <= NESTING_LIMIT
    ensures t[1..] != "" && Terminated(P.SkipBlanks(t[1..]))
    ensures depth >= NESTING_LIMIT ==> P.ParseArray(t, depth).Fail?
    ensures depth < NESTING_LIMIT ==>
              var u := P.SkipBlanks(t[1..]);
              var r := P.ParseArray(t, depth);
              if u[0] == ']' then r.Ok? && r.tree.Bracketed? && r.tree.elements == [] && r.rest == u[1..]
              else
                var es := P.ParseElements(u, depth + 1);
                && (es.NoElements? ==> r.Fail?)
                && (es.Elements? ==>
                     r.Ok? && r.tree.Bracketed? && r.rest == es.rest && SameValues(r.tree.elements, es.elements))
  {
    hide P.ParseElements, P.SkipBlanks, P.Skipped;
    if depth < NESTING_LIMIT {
      BlanksBeforeElements(t[1..], depth + 1);
    }
  }

  lemma ElementsBegin(t: string, d: nat)
    requires Terminated(t) && d <= NESTING_LIMIT
    ensures P.ParseElements(t, d) == Prepend([], P.ParseElements(t, d))
  {
    hide P.ParseElements;
    var r := P.ParseElements(t, d);
    if r.Elements? {
      assert [] + r.elements == r.elements;
    }
  }

  lemma ElementsStep(t: string, d: nat)
    requires Terminated(t) && d <= NESTING_LIMIT
    ensures var r := P.ParseElement(t, d);
            P.ParseElements(t, d)
            == if r.NoElement? then P.NoElements
               else if r.rest[0] == ',' then Prepend([r.element], P.ParseElements(r.rest[1..], d))
               else if r.rest[0] == ']' then P.Elements([r.element], r.rest[1..])
               else P.NoElements
  {
    hide P.ParseElement;
  }

  lemma ElementsTurn(t0: string, d: nat, es: seq<Element>, t: string)
    requires Terminated(t0) && Terminated(t) && d <= NESTING_LIMIT
    requires P.ParseElements(t0, d) == Prepend(es, P.ParseElements(t, d))
    ensures var r := P.ParseElement(t, d);
            if r.NoElement? then P.ParseElements(t0, d) == P.NoElements
            else if r.rest[0] == ',' then
              P.ParseElements(t0, d) == Prepend(es + [r.element], P.ParseElements(r.rest[1..], d))
            else if r.rest[0] == ']' then P.ParseElements(t0, d) == P.Elements(es + [r.element], r.rest[1..])
            else P.ParseElements(t0, d) == P.NoElements
  {
    hide P.ParseElement, P.ParseElements;
    ElementsStep(t, d);
    var r := P.ParseElement(t, d);
    if r.GotElement? && r.rest[0] == ',' {
      var more := P.ParseElements(r.rest[1..], d);
      if more.Elements? {
        assert es + ([r.element] + more.elements) == (es + [r.element]) + more.elements;
      }
    }
  }

  lemma ElementsDenoteSnoc(kids: seq<Shape>, es: seq<Element>, sh: Shape, e: Element)
    requires ElementsDenote(kids, es) && Denotes(sh, e.value)
    ensures ElementsDenote(kids + [sh], es + [e])
  {
  }

  lemma SameDenotes(kids: seq<Shape>, a: seq<Element>, b: seq<Element>)
    requires SameValues(a, b) && ElementsDenote(kids, b)
    ensures ElementsDenote(kids, a)
  {
  }

  // The children of an array denote its meaning.
  lemma ArrayDenotes(sh: Shape, tree: Cst)
    requires sh.data == DArray && tree.Bracketed? && Accepted(tree)
    requires ElementsDenote(sh.kids, tree.elements)
    ensures Denotes(sh, tree)
  {
    var kids := sh.kids;
    forall i | 0 <= i < |kids|
      ensures Valued(kids[i]) && ValueOf(kids[i]) == Meaning(tree.elements[i].value)
    {
      assert Denotes(kids[i], tree.elements[i].value);
    }
    assert ItemsOf(kids) == ElementsMeaning(tree.elements);
  }

  lemma ArraySoundHere(t: string, depth: nat)
    requires Terminated(t) && t[0] == '[' && depth <= NESTING_LIMIT && P.ParseArray(t, depth).Ok?
    ensures Accepted(P.ParseArray(t, depth).tree)
  {
    T.ArraySound(t, depth);
  }

  // ---- Objects ----

  lemma EntryParts(t: string, depth: nat)
    requires Terminated(t) && depth <= NESTING_LIMIT
    ensures var r := P.ParseEntry(t, depth);
            var q := P.ParseQuoted(P.SkipBlanks(t));
            && (q.NoString? ==> r.NoEntry?)
            && (q.GotString? ==>
                  && Terminated(q.rest)
                  && var c := P.SkipBlanks(q.rest);
                  && (c[0] != ':' ==> r.NoEntry?)
                  && (c[0] == ':' ==>
                        && |c| > 1 && Terminated(c[1..])
                        && var v := P.ParseValue(P.SkipBlanks(c[1..]), depth);
                        && (v.Fail? ==> r.NoEntry?)
                        && (v.Ok? ==> r.GotEntry? && r.entry.key == q.body && r.entry.value == v.tree
                                      && r.rest == P.SkipBlanks(v.rest))))
  {
    hide P.ParseValue, P.SkipBlanks, P.Skipped, P.ParseQuoted;
  }

  // Blanks in front of the first member do not matter to the loop.
  lemma BlanksBeforeEntries(t: string, d: nat)
    requires Terminated(t) && d <= NESTING_LIMIT
    ensures var r, q := P.ParseEntries(t, d), P.ParseEntries(P.SkipBlanks(t), d);
            && (q.NoEntries? ==> r.NoEntries?)
            && (q.Entries? ==> r.Entries? && r.rest == q.rest && |r.entries| == |q.entries|
                                && forall i | 0 <= i < |q.entries| ::
                                     r.entries[i].value == q.entries[i].value && r.entries[i].key == q.entries[i].key)
  {
    hide P.ParseValue, P.ParseQuoted, P.SkipBlanks, P.Skipped;
    SkipTwice(t);
  }

  // parse_object in terms of what stands behind the blanks after the brace.
  lemma ObjectParts(t: string, depth: nat)
    requires Terminated(t) && t[0] == '{' && depth <= NESTING_LIMIT
    ensures t[1..] != "" && Terminated(P.SkipBlanks(t[1..]))
    ensures depth >= NESTING_LIMIT ==> P.ParseObject(t, depth).Fail?
    ensures depth < NESTING_LIMIT ==>
              var u := P.SkipBlanks(t[1..]);
              var r := P.ParseObject(t, depth);
              if u[0] == '}' then r.Ok? && r.tree.Braced? && r.tree.entries == [] && r.rest == u[1..]
              else
                var es := P.ParseEntries(u, depth + 1);
                && (es.NoEntries? ==> r.Fail?)
                && (es.Entries? ==>
                     r.Ok? && r.tree.Braced? && r.rest == es.rest && SameEntries(r.tree.entries, es.entries))
  {
    hide P.ParseEntries, P.SkipBlanks, P.Skipped;
    if depth < NESTING_LIMIT {
      BlanksBeforeEntries(t[1..], depth + 1);
    }
  }

  lemma EntriesBegin(t: string, d: nat)
    requires Terminated(t) && d <= NESTING_LIMIT
    ensures P.ParseEntries(t, d) == PrependEntries([], P.ParseEntries(t, d))
  {
    hide P.ParseEntries;
    var r := P.ParseEntries(t, d);
    if r.Entries? {
      assert [] + r.entries == r.entries;
    }
  }

  lemma EntriesStep(t: string, d: nat)
    requires Terminated(t) && d <= NESTING_LIMIT
    ensures var r := P.ParseEntry(t, d);
            P.ParseEntries(t, d)
            == if r.NoEntry? then P.NoEntries
               else if r.rest[0] == ',' then PrependEntries([r.entry], P.ParseEntries(r.rest[1..], d))
               else if r.rest[0] == '}' then P.Entries([r.entry], r.rest[1..])
               else P.NoEntries
  {
    hide P.ParseEntry;
  }

  lemma EntriesTurn(t0: string, d: nat, es: seq<Entry>, t: string)
    requires Terminated(t0) && Terminated(t) && d <= NESTING_LIMIT
    requires P.ParseEntries(t0, d) == PrependEntries(es, P.ParseEntries(t, d))
    ensures var r := P.ParseEntry(t, d);
            if r.NoEntry? then P.ParseEntries(t0, d) == P.NoEntries
            else if r.rest[0] == ',' then
              P.ParseEntries(t0, d) == PrependEntries(es + [r.entry], P.ParseEntries(r.rest[1..], d))
            else if r.rest[0] == '}' then P.ParseEntries(t0, d) == P.Entries(es + [r.entry], r.rest[1..])
            else P.ParseEntries(t0, d) == P.NoEntries
  {
    hide P.ParseEntry, P.ParseEntries;
    EntriesStep(t, d);
    var r := P.ParseEntry(t, d);
    if r.GotEntry? && r.rest[0] == ',' {
      var more := P.ParseEntries(r.rest[1..], d);
      if more.Entries? {
        assert es + ([r.entry] + more.entries) == (es + [r.entry]) + more.entries;
      }
    }
  }

  lemma EntriesDenoteSnoc(kids: seq<Shape>, es: seq<Entry>, sh: Shape, e: Entry)
    requires EntriesDenote(kids, es) && MemberDenotes(sh, e)
    ensures EntriesDenote(kids + [sh], es + [e])
  {
  }

  lemma SameMembers(kids: seq<Shape>, a: seq<Entry>, b: seq<Entry>)
    requires SameEntries(a, b) && EntriesDenote(kids, b)
    ensures EntriesDenote(kids, a)
  {
  }

  // The children of an object denote its meaning.
  lemma ObjectDenotes(sh: Shape, tree: Cst)
    requires sh.data == DObject && tree.Braced? && Accepted(tree)
    requires EntriesDenote(sh.kids, tree.entries)
    ensures Denotes(sh, tree)
  {
    var kids := sh.kids;
    forall i | 0 <= i < |kids|
      ensures Valued(kids[i]) && ValueOf(kids[i]) == Meaning(tree.entries[i].value)
              && kids[i].name == BodyMeaning(tree.entries[i].key)
    {
      assert MemberDenotes(kids[i], tree.entries[i]);
    }
    assert MembersOf(kids) == EntriesMeaning(tree.entries);
  }

  lemma ObjectSoundHere(t: string, depth: nat)
    requires Terminated(t) && t[0] == '{' && depth <= NESTING_LIMIT && P.ParseObject(t, depth).Ok?
    ensures Accepted(P.ParseObject(t, depth).tree)
  {
    T.ObjectSound(t, depth);
  }

  class ParseBuffer {
    const content: string
    const mem: Allocator
    var offset: nat
    var depth: nat

    constructor (content: string, mem: Allocator)
      ensures this.content == content && this.mem == mem && offset == 0 && depth == 0
    {
      this.content, this.mem := content, mem;
      offset, depth := 0, 0;
    }

    // The text behind position `o`.
    ghost function Past(o: nat): (t: string)
      requires Terminated(content) && o < |content|
      ensures t == content[o + 1..] == content[o..][1..] && content[o] == content[o..][0]
      ensures content[o] != NUL ==> Terminated(t) && o + 1 < |content|
    {
      content[o + 1..]
    }

    // The text from position `o` on.
    ghost function From(o: nat): (t: string)
      requires Terminated(content) && o < |content|
      ensures Terminated(t) && t == content[o..]
    {
      assert content[o..][|content| - o - 1] == content[|content| - 1];
      content[o..]
    }

    // The cursor stands on a byte of the terminated buffer, and neither the buffer nor the
    // allocator is a block handed out by the allocator.
    ghost predicate Ready()
      reads this, mem
    {
      Terminated(content) && offset < |content| && depth <= NESTING_LIMIT && Apart()
    }

    ghost predicate Apart()
      reads this, mem
    {
      this !in mem.live && mem !in mem.live
    }

    // buffer_skip_whitespace: never ends below where it began, in spite of its decrement.
    method SkipWhitespace()
      requires Terminated(content)
      modifies this`offset
      ensures old(offset) < |content| ==>
                old(offset) <= offset < |content| && content[offset..] == P.SkipBlanks(old(content[offset..]))
      ensures old(offset) >= |content| ==> offset == old(offset)
    {
      if offset >= |content| {
        return;
      }
      ghost var start := offset;
      while offset < |content| && content[offset] <= ' '
        invariant start <= offset <= |content|
        invariant P.SkipBlanks(content[start..]) ==
                  if offset < |content| then P.SkipBlanks(content[offset..]) else content[|content| - 1..]
        decreases |content| - offset
      {
        assert offset < |content| - 1 ==> content[offset..][1..] == content[offset + 1..];
        offset := offset + 1;
      }
      if offset == |content| {
        offset := offset - 1;
      }
    }

    // The copying loop of parse_number: at most 63 number characters.
    method CopyNumber(buffer: array<char>) returns (i: nat)
      requires offset <= |content| && buffer.Length == 64
      modifies buffer
      ensures i <= 63 && buffer[..i] == NumberRun(content[offset..], MAX_NUMERAL) && buffer[i] == NUL
    {
      ghost var t := content[offset..];
      i := 0;
      while i < 63 && offset + i < |content| && NumberChar(content[offset + i])
        invariant i <= 63 && offset + i <= |content|
        invariant forall k | 0 <= k < i :: buffer[k] == t[k] && NumberChar(t[k])
      {
        buffer[i] := content[offset + i];
        i := i + 1;
      }
      RunIs(t, i, MAX_NUMERAL);
      buffer[i] := NUL;
      assert buffer[..i] == t[..i];
    }

    // parse_number; strtod is the function Strtod.
    method ParseNumber(item: Node, ghost own: Shape) returns (ok: bool, ghost sh: Shape)
      requires Ready() && (content[offset] == '-' || Digit(content[offset]))
      requires Unfilled(item, own) && Blocks(own) <= mem.live
      modifies this`offset, item
      ensures var r := P.ParseNumber(From(old(offset)));
              && ok == r.Ok?
              && (ok ==> offset < |content| && content[offset..] == r.rest && GoodNumeral(r.tree.numeral)
                         && Longest(r.tree.numeral, NumberRun(From(old(offset)), MAX_NUMERAL))
                         && sh == own.(data := DNumber(DoubleOf(r.tree.numeral))) && Wired(sh))
      ensures item.next == old(item.next) && item.prev == old(item.prev)
      ensures !ok ==> offset == old(offset) && Wired(own)
    {
      hide NumeralText, DoubleOf, Wired, Strtod, NumberRun, GoodNumeral, Blocks, Longest;
      sh := own;
      ghost var t := content[offset..];
      var buffer := new char[64];
      assert buffer !in mem.live;
      var i := CopyNumber(buffer);
      var reading := Strtod(buffer[..i]);
      if reading.NoNumber? {
        return false, sh;
      }
      P.NumeralIsRead(t);
      P.NumeralIsProper(t);
      StrtodExactly(NumberRun(t, MAX_NUMERAL), reading.numeral);
      var length := |NumeralText(reading.numeral)|;
      assert content[offset + length..] == t[length..];
      sh := SetNumber(item, DoubleOf(reading.numeral), own);
      offset := offset + length;
      return true, sh;
    }

    // First pass of parse_string: the closing quote and the number of escapes before it.
    method ScanString(start: nat) returns (ok: bool, end: nat, skipped: nat)
      requires start <= |content|
      ensures var n := CloseAt(content[start..]);
              && ok == (n >= 0)
              && (ok ==>
                   end == start + n < |content| && content[end] == QUOTE && skipped == Escapes(content[start..end]))
    {
      hide CloseAt, Escapes;
      ghost var close := CloseAt(content[start..]);
      end, skipped := start, 0;
      while end < |content| && content[end] != QUOTE
        invariant start <= end <= |content|
        invariant Shifted(CloseAt(content[end..]), end - start) == close
        invariant close >= 0 ==> end <= start + close < |content| && content[start + close] == QUOTE
        invariant close >= 0 ==>
                    Escapes(content[start..start + close]) == skipped + Escapes(content[end..start + close])
        decreases |content| - end
      {
        CloseStep(content, end);
        if close >= 0 {
          EscapesStepAt(content, end, start + close);
        }
        if content[end] == BACKSLASH {
          if end + 1 >= |content| {
            return false, end, skipped;
          }
          skipped := skipped + 1;
          end := end + 1;
        }
        end := end + 1;
      }
      ScanEnds(content, end);
      ok := end < |content| && content[end] == QUOTE;
    }

    // parse_hex4
    method ParseHex4(input: nat) returns (h: nat)
      requires input + 4 <= |content|
      ensures h == Hex4(content[input..input + 4])
      ensures h < 0x10000
      ensures SpellsUnit(content[input..input + 4], h) || (h == 0 && !FourHex(content[input..input + 4]))
    {
      Hex4Exactly(content[input..input + 4], Hex4(content[input..input + 4]));
      h := 0;
      var i := 0;
      ghost var t := content[input..input + 4];
      while i < 4
        invariant i <= 4
        invariant forall k | 0 <= k < i :: HexDigit(t[k])
        invariant i == 0 ==> h == 0
        invariant i == 1 ==> h == HexValue(t[0]) * 16
        invariant i == 2 ==> h == (HexValue(t[0]) * 16 + HexValue(t[1])) * 16
        invariant i == 3 ==> h == ((HexValue(t[0]) * 16 + HexValue(t[1])) * 16 + HexValue(t[2])) * 16
        invariant i == 4 ==> h == ((HexValue(t[0]) * 16 + HexValue(t[1])) * 16 + HexValue(t[2])) * 16 + HexValue(t[3])
      {
        var c := content[input + i];
        assert c == t[i];
        if '0' <= c <= '9' {
          h := h + (c as int - '0' as int);
        } else if 'A' <= c <= 'F' {
          h := h + 10 + (c as int - 'A' as int);
        } else if 'a' <= c <= 'f' {
          h := h + 10 + (c as int - 'a' as int);
        } else {
          return 0;
        }
        if i < 3 {
          h := h * 16;
        }
        i := i + 1;
      }
    }

    // The encoding half of utf16_literal_to_utf8: bytes from the last one backwards.
    method EncodeUtf8(codepoint: nat, output: array<char>, k: nat)
      requires codepoint <= 0x10FFFF && k + Utf8Length(codepoint) <= output.Length
      modifies output
      ensures output[k..k + Utf8Length(codepoint)] == Utf8(codepoint)
      ensures forall i | 0 <= i < k :: output[i] == old(output[i])
    {
      hide Utf8, Lead, LeadMark, Utf8Length, And, Or;
      var length := Utf8Length(codepoint);
      var rest := codepoint;
      var position := length - 1;
      while position > 0
        invariant 0 <= position < length
        invariant rest == Shift6(codepoint, length - 1 - position)
        invariant forall q | position < q < length :: output[k + q] == Utf8(codepoint)[q]
        invariant forall i | 0 <= i < k :: output[i] == old(output[i])
      {
        Utf8ByteAt(codepoint, position);
        ContinuationInBits(rest);
        output[k + position] := And(Or(rest, 0x80), 0xBF) as char;
        rest := rest / 64;
        position := position - 1;
      }
      Utf8ByteAt(codepoint, 0);
      if length > 1 {
        LeadInBits(rest, length);
        output[k] := And(Or(rest, LeadMark(length)), 0xFF) as char;
      } else {
        AsciiInBits(rest);
        output[k] := And(rest, 0x7F) as char;
      }
    }

    // utf16_literal_to_utf8; the length 0 means failure.
    method Utf16LiteralToUtf8(input: nat, end: nat, output: array<char>, k: nat) returns (length: nat, next: nat)
      requires input + 2 <= end <= |content| && k <= output.Length
      requires var u := Utf16Literal(content[input..end]); u.Unit? ==> k + |u.bytes| <= output.Length
      modifies output
      ensures var u := Utf16Literal(content[input..end]);
              && (u.BadUnit? ==> length == 0)
              && (u.Unit? ==>
                   length == u.consumed && next == k + |u.bytes| <= output.Length && output[k..next] == u.bytes)
      ensures forall i | 0 <= i < k :: output[i] == old(output[i])
    {
      hide Utf8, Hex4, And, Or;
      length, next := 0, k;
      if end - input < 6 {
        return;
      }
      SubSlice(content, input, end, 2, 6);
      var first := ParseHex4(input + 2);
      if 0xDC00 <= first <= 0xDFFF {
        return;
      }
      var codepoint := first;
      var sequence := 6;
      if 0xD800 <= first <= 0xDBFF {
        sequence := 12;
        if end - (input + 6) < 6 || content[input + 6] != BACKSLASH || content[input + 7] != 'u' {
          return;
        }
        SubSlice(content, input, end, 8, 12);
        var second := ParseHex4(input + 8);
        if second < 0xDC00 || second > 0xDFFF {
          return;
        }
        CombineInBits(first, second);
        codepoint := 0x10000 + Or(And(first, 0x3FF) * 0x400, And(second, 0x3FF));
      }
      EncodeUtf8(codepoint, output, k);
      length, next := sequence, k + Utf8Length(codepoint);
    }

    // The escape half of the decoding loop of parse_string.
    method DecodeEscape(input: nat, end: nat, output: array<char>, k: nat) returns (length: nat, next: nat)
      requires input < end < |content| && content[input] == BACKSLASH && content[end] == QUOTE && k <= output.Length
      requires var u := DecodeUnit(content[input..end]); u.Unit? ==> k + |u.bytes| <= output.Length
      modifies output
      ensures var u := DecodeUnit(content[input..end]);
              && (u.BadUnit? ==> length == 0)
              && (u.Unit? ==>
                   length == u.consumed && next == k + |u.bytes| <= output.Length && output[k..next] == u.bytes)
      ensures forall i | 0 <= i < k :: output[i] == old(output[i])
    {
      hide Utf16Literal;
      ghost var t := content[input..end];
      var c := content[input + 1];
      assert if input + 1 < end then t[1] == c else c == QUOTE;
      if c == 'u' {
        length, next := Utf16LiteralToUtf8(input, end, output, k);
        return;
      }
      length, next := 2, k + 1;
      if c == 'b' {
        output[k] := BACKSPACE;
      } else if c == 'f' {
        output[k] := FORM_FEED;
      } else if c == 'n' {
        output[k] := '\n';
      } else if c == 'r' {
        output[k] := '\r';
      } else if c == 't' {
        output[k] := '\t';
      } else if c == QUOTE || c == BACKSLASH || c == '/' {
        output[k] := c;
      } else {
        length, next := 0, k;
      }
    }

    // Second pass of parse_string: every byte, the terminator included, fits into the
    // buffer whose size the first pass estimated.
    method DecodeInto(start: nat, end: nat, output: array<char>) returns (ok: bool, input: nat, ghost text: string)
      requires start <= end < |content| && content[end] == QUOTE
      requires output.Length == end - start + 2 - Escapes(content[start..end])
      modifies output
      ensures ok == Decode(content[start..end]).Some?
      ensures ok ==> text == Decode(content[start..end]).value && |text| < output.Length && output[|text|] == NUL
      ensures ok ==> forall i | 0 <= i < |text| :: output[i] == text[i]
    {
      hide Decode, Escapes, DecodeUnit, Budget, Left;
      ghost var body := content[start..end];
      var k := 0;
      input := start;
      text := "";
      DecodeStart(content, start, end);
      while input < end
        invariant start <= input <= end + 1 && k == |text|
        invariant Decode(body) == Prefixed(text, Decode(Left(content, input, end)))
        invariant k + Budget(content, input, end) <= output.Length - 2
        invariant input <= end ==> Budget(content, input, end) >= 0
        invariant input > end ==> Budget(content, input, end) >= -1
        invariant forall i | 0 <= i < |text| :: output[i] == text[i]
        decreases end + 1 - input
      {
        ghost var u := DecodeUnit(content[input..end]);
        TurnFits(content, input, end, text, body);
        if content[input] != BACKSLASH {
          output[k] := content[input];
          input, k := input + 1, k + 1;
        } else {
          var length, next := DecodeEscape(input, end, output, k);
          if length == 0 {
            return false, input, text;
          }
          input, k := input + length, next;
        }
        text := text + u.bytes;
      }
      DecodeEnd(content, input, end, text);
      output[k] := NUL;
      ok := true;
    }

    // parse_string
    method ParseString(item: Node, ghost own: Shape) returns (ok: bool, ghost sh: Shape)
      requires Ready() && Unfilled(item, own) && Blocks(own) <= mem.live
      modifies this`offset, item, mem
      ensures Apart() && mem.failures >= old(mem.failures)
      ensures var r := P.ParseQuoted(From(old(offset)));
              && (ok ==> r.GotString? && GoodBody(r.body) && offset < |content| && content[offset..] == r.rest
                         && sh == own.(text := sh.text, data := DString(BodyMeaning(r.body))))
              && (!ok ==> r.NoString? || mem.failures > old(mem.failures))
      ensures ok ==> sh.text != null && fresh(sh.text) && mem.live == old(mem.live) + {sh.text}
                     && mem.failures == old(mem.failures) && Wired(sh) && Separate(sh)
      ensures !ok ==> mem.live == old(mem.live) && Wired(own)
      ensures item.next == old(item.next) && item.prev == old(item.prev)
    {
      hide Decode, Escapes, CloseAt, Wired, Separate, Blocks, CString, P.ParseQuoted, GoodBody;
      sh := own;
      QuotedAt(content, offset);
      if content[offset] != QUOTE {
        offset := offset + 1;
        return false, sh;
      }
      var found, end, skipped := ScanString(offset + 1);
      if !found {
        offset := offset + 1;
        return false, sh;
      }
      var length := end - offset - skipped;
      var output := mem.NewString(length + 1);
      if output == null {
        offset := offset + 1;
        return false, sh;
      }
      var decoded, input, text := DecodeInto(offset + 1, end, output);
      if !decoded {
        mem.Release(output);
        offset := input;
        return false, sh;
      }
      sh := SetString(item, output, text, own);
      offset := end + 1;
      return true, sh;
    }

    // The head of the loops of parse_array and parse_object: a new last item.
    method NewLast(head: Node?, current: Node?, ghost kids: seq<Shape>)
      returns (item: Node?, newHead: Node?, ghost own: seq<Shape>)
      requires Apart() && ListOf(kids, head, current) && BlocksOf(kids) <= mem.live
      modifies mem, if current == null then {} else {current}
      ensures Apart() && mem.failures >= old(mem.failures)
      ensures item == null ==>
                mem.failures > old(mem.failures) && mem.live == old(mem.live) && ListOf(kids, head, current)
      ensures item != null ==>
                && fresh(item) && mem.live == old(mem.live) + {item} && mem.failures == old(mem.failures)
                && own == [Shape(item, null, "", null, DInvalid, [])]
                && Unfilled(item, own[0]) && Blocks(own[0]) == {item}
                && Open(kids, item) && Behind(kids, item) && newHead == First(kids + own)
    {
      hide Wired, Blocks, BlocksOf, Separate, SeparateAll, Open, Chain;
      newHead, own := head, [];
      item := mem.NewItem();
      if item != null {
        ghost var x := Shape(item, null, "", null, DInvalid, []);
        own := [x];
        FreshItem(item, x);
        newHead := AttachItem(head, current, item, kids, x);
      }
    }

    // One turn of the loop of parse_array: a new item is appended and parsed.
    method NextElement(head: Node?, current: Node?, ghost kids: seq<Shape>, ghost t: string)
      returns (ok: bool, newHead: Node?, newCurrent: Node?, ghost list: seq<Shape>)
      requires Terminated(content) && offset + 1 < |content| && depth <= NESTING_LIMIT && Apart()
      requires t == content[offset + 1..] && Terminated(t)
      requires ListOf(kids, head, current) && BlocksOf(kids) <= mem.live
      modifies this`offset, this`depth, mem, if current == null then {} else {current}
      ensures Apart() && mem.failures >= old(mem.failures)
      ensures ListOf(list, newHead, newCurrent)
      ensures BlocksOf(kids) <= BlocksOf(list)
      ensures fresh(BlocksOf(list) - BlocksOf(kids)) && mem.live == old(mem.live) + BlocksOf(list)
      ensures var r := P.ParseElement(t, old(depth));
              && (ok ==> r.GotElement? && old(offset) < offset < |content| && content[offset..] == r.rest
                         && |list| == |kids| + 1 && list == kids + [list[|kids|]]
                         && Denotes(list[|kids|], r.element.value))
              && (!ok ==> r.NoElement? || mem.failures > old(mem.failures))
      ensures ok ==> mem.failures == old(mem.failures) && depth == old(depth)
      decreases |content| - offset, 0
    {
      hide Wired, Blocks, BlocksOf, Separate, SeparateAll, Open, Chain, Unfilled, P.ParseElement, P.ParseValue,
           P.SkipBlanks, P.Skipped, Denotes, ListOf, Behind, Terminated;
      ListIsSeparate(kids, head, current);
      ElementParts(t, depth);
      newCurrent, list := current, kids;
      var item;
      ghost var own;
      item, newHead, own := NewLast(head, current, kids);
      if item == null {
        return false, head, current, kids;
      }
      newCurrent := item;
      offset := offset + 1;
      SkipWhitespace();
      ghost var sh;
      ok, sh := ParseValue(item, own[0], P.SkipBlanks(t));
      if !ok {
        sh := own[0];
        UnfilledIsWired(item, sh);
      } else {
        SkipWhitespace();
      }
      list := kids + [sh];
      Refilled(kids, sh);
    }

    // The loop of parse_array, starting in front of the first element.
    method ParseElements(ghost t: string) returns (ok: bool, head: Node?, current: Node?, ghost kids: seq<Shape>)
      requires Terminated(content) && offset + 1 < |content| && depth <= NESTING_LIMIT && Apart()
      requires t == content[offset + 1..] && Terminated(t)
      modifies this`offset, this`depth, mem
      ensures Apart() && mem.failures >= old(mem.failures)
      ensures ListOf(kids, head, current) && fresh(BlocksOf(kids)) && mem.live == old(mem.live) + BlocksOf(kids)
      ensures var r := P.ParseElements(t, old(depth));
              && (ok ==> r.Elements? && old(offset) < offset < |content| && content[offset] == ']'
                         && content[offset + 1..] == r.rest && ElementsDenote(kids, r.elements) && kids != [])
              && (!ok ==> r.NoElements? || mem.failures > old(mem.failures))
      ensures ok ==> mem.failures == old(mem.failures) && depth == old(depth)
      decreases |content| - offset, 1
    {
      hide Wired, Blocks, BlocksOf, Separate, SeparateAll, Open, Chain, ListOf, Denotes, ElementsDenote, Prepend,
           P.ParseElement, P.ParseElements;
      ghost var d, es, u := depth, [], t;
      head, current, kids := null, null, [];
      NoList();
      ElementsBegin(t, d);
      var more := true;
      while more
        invariant Apart() && mem.failures == old(mem.failures)
        invariant old(offset) <= offset < |content| && depth == d
        invariant ListOf(kids, head, current) && fresh(BlocksOf(kids)) && mem.live == old(mem.live) + BlocksOf(kids)
        invariant ElementsDenote(kids, es)
        invariant more ==> offset + 1 < |content| && u == content[offset + 1..] && Terminated(u)
                           && P.ParseElements(t, d) == Prepend(es, P.ParseElements(u, d))
        invariant !more ==> old(offset) < offset && kids != []
                            && P.ParseElements(t, d)
                               == if content[offset] == ']' then P.Elements(es, content[offset + 1..])
                                                        else P.NoElements
        decreases |content| - offset, more
      {
        CurrentIsListed(kids, head, current);
        ElementsTurn(t, d, es, u);
        ghost var r, before := P.ParseElement(u, d), kids;
        ok, head, current, kids := NextElement(head, current, kids, u);
        if !ok {
          return;
        }
        ElementsDenoteSnoc(before, es, kids[|before|], r.element);
        es := es + [r.element];
        u := Past(offset);
        more := content[offset] == ',';
      }
      ok := content[offset] == ']';
    }

    // Behind the opening bracket and the blanks that follow it.
    method Enter(ghost t: string)
      requires Ready() && depth < NESTING_LIMIT
      requires t == content[offset..] && Terminated(t) && content[offset] != NUL
      modifies this`offset, this`depth
      ensures depth == old(depth) + 1 && old(offset) < offset < |content|
      ensures content[offset..] == P.SkipBlanks(t[1..]) && Terminated(content[offset..])
      ensures content[offset..][0] == content[offset] && content[offset..][1..] == content[offset + 1..]
      ensures content[offset] != NUL ==> offset + 1 < |content|
    {
      hide P.SkipBlanks;
      ghost var inner := Past(offset);
      depth := depth + 1;
      offset := offset + 1;
      SkipWhitespace();
      ghost var next := Past(offset);
    }

    // parse_array between its nesting check and the label `success`: the cursor goes to the
    // closing bracket, or every item is deleted again.
    method ArrayItems(ghost t: string) returns (ok: bool, head: Node?, current: Node?, ghost kids: seq<Shape>)
      requires Ready() && depth < NESTING_LIMIT
      requires t == content[offset..] && Terminated(t) && t[0] == '['
      modifies this`offset, this`depth, mem
      ensures Apart() && mem.failures >= old(mem.failures)
      ensures var r := P.ParseArray(t, old(depth));
              && (ok ==> r.Ok? && r.tree.Bracketed? && old(offset) < offset < |content| - 1
                         && content[offset + 1..] == r.rest && ElementsDenote(kids, r.tree.elements))
              && (!ok ==> r.Fail? || mem.failures > old(mem.failures))
      ensures ok ==> ListOf(kids, head, current) && fresh(BlocksOf(kids)) && mem.live == old(mem.live) + BlocksOf(kids)
                     && mem.failures == old(mem.failures) && depth == old(depth) + 1
      ensures !ok ==> mem.live == old(mem.live)
      decreases |content| - offset, 3
    {
      hide Wired, Blocks, BlocksOf, Separate, SeparateAll, Open, Chain, ListOf, ElementsDenote, SameValues,
           P.ParseArray, P.ParseElements, P.SkipBlanks, P.Skipped, Terminated;
      ArrayParts(t, depth);
      ghost var u := P.SkipBlanks(t[1..]);
      ghost var want, got := P.ParseArray(t, depth), P.ParseElements(u, depth + 1);
      Enter(t);
      NotTheLast(content, offset);
      if content[offset] == ']' {
        head, current, kids := null, null, [];
        NoList();
        return true, head, current, kids;
      }
      // step back to the character in front of the first element
      offset := offset - 1;
      ok, head, current, kids := ParseElementsOrDelete(u);
      if ok {
        SameDenotes(kids, want.tree.elements, got.elements);
      }
    }

    // The loop and the label `fail`.
    method ParseElementsOrDelete(ghost t: string)
      returns (ok: bool, head: Node?, current: Node?, ghost kids: seq<Shape>)
      requires Terminated(content) && offset + 1 < |content| && depth <= NESTING_LIMIT && Apart()
      requires t == content[offset + 1..] && Terminated(t)
      modifies this`offset, this`depth, mem
      ensures Apart() && mem.failures >= old(mem.failures)
      ensures var r := P.ParseElements(t, old(depth));
              && (ok ==> r.Elements? && old(offset) < offset < |content| - 1
                         && content[offset + 1..] == r.rest && ElementsDenote(kids, r.elements))
              && (!ok ==> r.NoElements? || mem.failures > old(mem.failures))
      ensures ok ==> ListOf(kids, head, current) && fresh(BlocksOf(kids)) && mem.live == old(mem.live) + BlocksOf(kids)
                     && mem.failures == old(mem.failures) && depth == old(depth)
      ensures !ok ==> mem.live == old(mem.live)
      decreases |content| - offset, 2
    {
      hide Wired, Blocks, BlocksOf, Separate, SeparateAll, Open, Chain, ListOf, ElementsDenote, P.ParseElements;
      ok, head, current, kids := ParseElements(t);
      if ok {
        ghost var behind := Past(offset);
      } else {
        ListApartFrom(kids, mem);
        DeleteList(head, current, mem, kids);
      }
    }

    // parse_array
    method ParseArray(item: Node, ghost own: Shape, ghost t: string) returns (ok: bool, ghost sh: Shape)
      requires Ready() && Unfilled(item, own) && Blocks(own) <= mem.live
      requires t == content[offset..] && Terminated(t) && t[0] == '['
      modifies this`offset, this`depth, item, mem
      ensures Apart() && mem.failures >= old(mem.failures)
      ensures var r := P.ParseArray(t, old(depth));
              && (ok ==>
                   r.Ok? && old(offset) < offset < |content| && content[offset..] == r.rest && Denotes(sh, r.tree))
              && (!ok ==> r.Fail? || mem.failures > old(mem.failures))
      ensures ok ==> Filled(own, sh) && fresh(Blocks(sh) - Blocks(own)) && mem.live == old(mem.live) + Blocks(sh)
                     && mem.failures == old(mem.failures) && depth == old(depth)
      ensures !ok ==> mem.live == old(mem.live) && Unfilled(item, own)
      ensures item.next == old(item.next) && item.prev == old(item.prev)
      decreases |content| - offset, 4
    {
      hide Wired, Blocks, BlocksOf, Separate, SeparateAll, Open, Chain, WiredList, ListOf, Unfilled, Filled, Denotes,
           ElementsDenote, P.ParseArray, Accepted;
      sh := own;
      if depth >= NESTING_LIMIT {
        ArrayParts(t, depth);
        return false, sh;
      }
      ghost var r := P.ParseArray(t, depth);
      var head, current;
      ghost var kids;
      ok, head, current, kids := ArrayItems(t);
      if ok {
        depth := depth - 1;
        offset := offset + 1;
        HeadIsListed(kids, head, current);
        sh := Finish(item, KArray, head, current, own, kids);
        ArraySoundHere(t, depth);
        ArrayDenotes(sh, r.tree);
      }
    }

    // The first half of a turn of parse_object: the name of the member, up to the colon.
    method ParseKey(item: Node, ghost own: Shape, ghost t: string) returns (ok: bool, ghost named: Shape)
      requires Terminated(content) && offset + 1 < |content| && depth <= NESTING_LIMIT && Apart()
      requires t == content[offset + 1..] && Terminated(t)
      requires own == Shape(item, null, "", null, DInvalid, []) && Unfilled(item, own) && Blocks(own) <= mem.live
      modifies this`offset, item, mem
      ensures Apart() && mem.failures >= old(mem.failures)
      ensures var q := P.ParseQuoted(P.SkipBlanks(t));
              && (ok ==> q.GotString? && GoodBody(q.body) && named.name == BodyMeaning(q.body)
                         && old(offset) < offset < |content| - 1 && content[offset] == ':'
                         && content[offset..] == P.SkipBlanks(q.rest))
              && (!ok ==>
                   mem.failures > old(mem.failures) || q.NoString? || (q.rest != "" && P.SkipBlanks(q.rest)[0] != ':'))
      ensures ok ==> mem.failures == old(mem.failures)
      ensures named == own.(key := named.key, name := named.name) && Unfilled(item, named)
      ensures Blocks(named) == {item} + Optional(named.key) && fresh(Optional(named.key))
      ensures mem.live == old(mem.live) + Blocks(named)
      ensures item.next == old(item.next) && item.prev == old(item.prev)
    {
      hide Wired, Separate, Blocks, P.SkipBlanks, P.ParseQuoted, GoodBody, CString, Terminated;
      OwnIsSmall(own);
      named := own;
      offset := offset + 1;
      SkipWhitespace();
      ghost var sh;
      ok, sh := ParseString(item, own);
      if !ok {
        return;
      }
      LeafBlocks(sh);
      SkipWhitespace();
      // swap valuestring and string, because we parsed the name
      named := TakeName(item, own, sh);
      OwnIsSmall(named);
      ok := content[offset] == ':';
      NotTheLast(content, offset);
    }

    // One turn of the loop of parse_object.
    method NextEntry(head: Node?, current: Node?, ghost kids: seq<Shape>, ghost t: string)
      returns (ok: bool, newHead: Node?, newCurrent: Node?, ghost list: seq<Shape>)
      requires Terminated(content) && offset + 1 < |content| && depth <= NESTING_LIMIT && Apart()
      requires t == content[offset + 1..] && Terminated(t)
      requires ListOf(kids, head, current) && BlocksOf(kids) <= mem.live
      modifies this`offset, this`depth, mem, if current == null then {} else {current}
      ensures Apart() && mem.failures >= old(mem.failures)
      ensures ListOf(list, newHead, newCurrent) && BlocksOf(kids) <= BlocksOf(list)
      ensures fresh(BlocksOf(list) - BlocksOf(kids)) && mem.live == old(mem.live) + BlocksOf(list)
      ensures var r := P.ParseEntry(t, old(depth));
              && (ok ==> r.GotEntry? && old(offset) < offset < |content| && content[offset..] == r.rest
                         && |list| == |kids| + 1 && list == kids + [list[|kids|]]
                         && MemberDenotes(list[|kids|], r.entry))
              && (!ok ==> r.NoEntry? || mem.failures > old(mem.failures))
      ensures ok ==> mem.failures == old(mem.failures) && depth == old(depth)
      decreases |content| - offset, 0
    {
      hide Wired, Blocks, BlocksOf, Separate, SeparateAll, Open, Chain, Unfilled,
           P.ParseEntry, P.ParseValue, P.ParseQuoted, P.SkipBlanks, P.Skipped, Denotes, GoodBody;
      EntryParts(t, depth);
      newCurrent, list := current, kids;
      var item;
      ghost var own, sh;
      item, newHead, own := NewLast(head, current, kids);
      if item == null {
        return false, head, current, kids;
      }
      newCurrent := item;
      ok, sh := ParseKey(item, own[0], t);
      if ok {
        ok, sh := ParseMemberValue(item, sh, P.SkipBlanks(P.ParseQuoted(P.SkipBlanks(t)).rest));
      } else {
        UnfilledIsWired(item, sh);
      }
      list := kids + [sh];
      Refilled(kids, sh);
    }

    // The second half: the value behind the colon.
    method ParseMemberValue(item: Node, ghost own: Shape, ghost c: string) returns (ok: bool, ghost sh: Shape)
      requires Terminated(content) && offset < |content| - 1 && depth <= NESTING_LIMIT && Apart()
      requires c == content[offset..] && |c| > 1 && Terminated(c[1..])
      requires Unfilled(item, own) && own.text == null && own.kids == [] && Blocks(own) <= mem.live
      modifies this`offset, this`depth, item, mem
      ensures Apart() && mem.failures >= old(mem.failures)
      ensures var v := P.ParseValue(P.SkipBlanks(c[1..]), old(depth));
              && (ok ==>
                   && v.Ok? && old(offset) < offset < |content| && content[offset..] == P.SkipBlanks(v.rest)
                   && Denotes(sh, v.tree))
              && (!ok ==> v.Fail? || mem.failures > old(mem.failures))
      ensures Filled(own, sh) && fresh(Blocks(sh) - Blocks(own)) && mem.live == old(mem.live) + Blocks(sh)
      ensures Blocks(own) <= Blocks(sh)
      ensures ok ==> mem.failures == old(mem.failures) && depth == old(depth)
      ensures item.next == old(item.next) && item.prev == old(item.prev)
      decreases |content| - offset, 1
    {
      hide Wired, Blocks, Separate, Unfilled, Filled, P.ParseValue, P.SkipBlanks, Denotes;
      offset := offset + 1;
      SkipWhitespace();
      ok, sh := ParseValue(item, own, P.SkipBlanks(c[1..]));
      if ok {
        FilledKeeps(own, sh);
        SkipWhitespace();
      } else {
        sh := own;
        UnfilledIsWired(item, sh);
      }
    }

    // The loop of parse_object, starting in front of the first member.
    method ParseEntries(ghost t: string) returns (ok: bool, head: Node?, current: Node?, ghost kids: seq<Shape>)
      requires Terminated(content) && offset + 1 < |content| && depth <= NESTING_LIMIT && Apart()
      requires t == content[offset + 1..] && Terminated(t)
      modifies this`offset, this`depth, mem
      ensures Apart() && mem.failures >= old(mem.failures)
      ensures ListOf(kids, head, current) && fresh(BlocksOf(kids)) && mem.live == old(mem.live) + BlocksOf(kids)
      ensures var r := P.ParseEntries(t, old(depth));
              && (ok ==> r.Entries? && old(offset) < offset < |content| && content[offset] == '}'
                         && content[offset + 1..] == r.rest && EntriesDenote(kids, r.entries) && kids != [])
              && (!ok ==> r.NoEntries? || mem.failures > old(mem.failures))
      ensures ok ==> mem.failures == old(mem.failures) && depth == old(depth)
      decreases |content| - offset, 1
    {
      hide Wired, Blocks, BlocksOf, Separate, SeparateAll, Open, Chain, ListOf, MemberDenotes, EntriesDenote,
           PrependEntries, P.ParseEntry, P.ParseEntries;
      ghost var d, es, u := depth, [], t;
      head, current, kids := null, null, [];
      NoList();
      EntriesBegin(t, d);
      var more := true;
      while more
        invariant Apart() && mem.failures == old(mem.failures)
        invariant old(offset) <= offset < |content| && depth == d
        invariant ListOf(kids, head, current) && fresh(BlocksOf(kids)) && mem.live == old(mem.live) + BlocksOf(kids)
        invariant EntriesDenote(kids, es)
        invariant more ==> offset + 1 < |content| && u == content[offset + 1..] && Terminated(u)
                           && P.ParseEntries(t, d) == PrependEntries(es, P.ParseEntries(u, d))
        invariant !more ==> old(offset) < offset && kids != []
                            && P.ParseEntries(t, d)
                               == if content[offset] == '}' then P.Entries(es, content[offset + 1..])
                                                        else P.NoEntries
        decreases |content| - offset, more
      {
        CurrentIsListed(kids, head, current);
        EntriesTurn(t, d, es, u);
        ghost var r, before := P.ParseEntry(u, d), kids;
        ok, head, current, kids := NextEntry(head, current, kids, u);
        if !ok {
          return;
        }
        EntriesDenoteSnoc(before, es, kids[|before|], r.entry);
        es := es + [r.entry];
        u := Past(offset);
        more := content[offset] == ',';
      }
      ok := content[offset] == '}';
    }

    // parse_object between its nesting check and the label `success`: the cursor goes to the
    // closing brace, or every item is deleted again.
    method ObjectItems(ghost t: string) returns (ok: bool, head: Node?, current: Node?, ghost kids: seq<Shape>)
      requires Ready() && depth < NESTING_LIMIT
      requires t == content[offset..] && Terminated(t) && t[0] == '{'
      modifies this`offset, this`depth, mem
      ensures Apart() && mem.failures >= old(mem.failures)
      ensures var r := P.ParseObject(t, old(depth));
              && (ok ==> r.Ok? && r.tree.Braced? && old(offset) < offset < |content| - 1
                         && content[offset + 1..] == r.rest && EntriesDenote(kids, r.tree.entries))
              && (!ok ==> r.Fail? || mem.failures > old(mem.failures))
      ensures ok ==> ListOf(kids, head, current) && fresh(BlocksOf(kids)) && mem.live == old(mem.live) + BlocksOf(kids)
                     && mem.failures == old(mem.failures) && depth == old(depth) + 1
      ensures !ok ==> mem.live == old(mem.live)
      decreases |content| - offset, 3
    {
      hide Wired, Blocks, BlocksOf, Separate, SeparateAll, Open, Chain, ListOf, EntriesDenote, SameEntries,
           P.ParseObject, P.ParseEntries, P.SkipBlanks, P.Skipped, Terminated;
      ObjectParts(t, depth);
      ghost var u := P.SkipBlanks(t[1..]);
      ghost var want, got := P.ParseObject(t, depth), P.ParseEntries(u, depth + 1);
      Enter(t);
      NotTheLast(content, offset);
      if content[offset] == '}' {
        head, current, kids := null, null, [];
        NoList();
        return true, head, current, kids;
      }
      // step back to the character in front of the first member
      offset := offset - 1;
      ok, head, current, kids := ParseEntriesOrDelete(u);
      if ok {
        SameMembers(kids, want.tree.entries, got.entries);
      }
    }

    // The loop and the label `fail`.
    method ParseEntriesOrDelete(ghost t: string) returns (ok: bool, head: Node?, current: Node?, ghost kids: seq<Shape>)
      requires Terminated(content) && offset + 1 < |content| && depth <= NESTING_LIMIT && Apart()
      requires t == content[offset + 1..] && Terminated(t)
      modifies this`offset, this`depth, mem
      ensures Apart() && mem.failures >= old(mem.failures)
      ensures var r := P.ParseEntries(t, old(depth));
              && (ok ==> r.Entries? && old(offset) < offset < |content| - 1
                         && content[offset + 1..] == r.rest && EntriesDenote(kids, r.entries))
              && (!ok ==> r.NoEntries? || mem.failures > old(mem.failures))
      ensures ok ==> ListOf(kids, head, current) && fresh(BlocksOf(kids)) && mem.live == old(mem.live) + BlocksOf(kids)
                     && mem.failures == old(mem.failures) && depth == old(depth)
      ensures !ok ==> mem.live == old(mem.live)
      decreases |content| - offset, 2
    {
      hide Wired, Blocks, BlocksOf, Separate, SeparateAll, Open, Chain, ListOf, EntriesDenote, P.ParseEntries;
      ok, head, current, kids := ParseEntries(t);
      if ok {
        ghost var behind := Past(offset);
      } else {
        ListApartFrom(kids, mem);
        DeleteList(head, current, mem, kids);
      }
    }

    // parse_object
    method ParseObject(item: Node, ghost own: Shape, ghost t: string) returns (ok: bool, ghost sh: Shape)
      requires Ready() && Unfilled(item, own) && Blocks(own) <= mem.live
      requires t == content[offset..] && Terminated(t) && t[0] == '{'
      modifies this`offset, this`depth, item, mem
      ensures Apart() && mem.failures >= old(mem.failures)
      ensures var r := P.ParseObject(t, old(depth));
              && (ok ==>
                   r.Ok? && old(offset) < offset < |content| && content[offset..] == r.rest && Denotes(sh, r.tree))
              && (!ok ==> r.Fail? || mem.failures > old(mem.failures))
      ensures ok ==> Filled(own, sh) && fresh(Blocks(sh) - Blocks(own)) && mem.live == old(mem.live) + Blocks(sh)
                     && mem.failures == old(mem.failures) && depth == old(depth)
      ensures !ok ==> mem.live == old(mem.live) && Unfilled(item, own)
      ensures item.next == old(item.next) && item.prev == old(item.prev)
      decreases |content| - offset, 4
    {
      hide Wired, Blocks, BlocksOf, Separate, SeparateAll, Open, Chain, WiredList, ListOf, Unfilled, Filled, Denotes,
           EntriesDenote, P.ParseObject, Accepted;
      sh := own;
      if depth >= NESTING_LIMIT {
        ObjectParts(t, depth);
        return false, sh;
      }
      ghost var r := P.ParseObject(t, depth);
      var head, current;
      ghost var kids;
      ok, head, current, kids := ObjectItems(t);
      if ok {
        depth := depth - 1;
        offset := offset + 1;
        HeadIsListed(kids, head, current);
        sh := Finish(item, KObject, head, current, own, kids);
        ObjectSoundHere(t, depth);
        ObjectDenotes(sh, r.tree);
      }
    }

    // parse_value
    method ParseValue(item: Node, ghost own: Shape, ghost t: string) returns (ok: bool, ghost sh: Shape)
      requires Ready() && Unfilled(item, own) && Blocks(own) <= mem.live
      requires t == content[offset..] && Terminated(t)
      modifies this`offset, this`depth, item, mem
      ensures Apart() && mem.failures >= old(mem.failures)
      ensures var r := P.ParseValue(t, old(depth));
              && (ok ==>
                   r.Ok? && old(offset) < offset < |content| && content[offset..] == r.rest && Denotes(sh, r.tree))
              && (!ok ==> r.Fail? || mem.failures > old(mem.failures))
      ensures ok ==> Filled(own, sh) && fresh(Blocks(sh) - Blocks(own)) && mem.live == old(mem.live) + Blocks(sh)
                     && mem.failures == old(mem.failures) && depth == old(depth)
      ensures !ok ==> mem.live == old(mem.live) && Unfilled(item, own)
      ensures item.next == old(item.next) && item.prev == old(item.prev)
      decreases |content| - offset, 5
    {
      hide Wired, Blocks, Separate, Unfilled, Filled, Denotes, P.ParseArray, P.ParseObject, P.ParseString,
           P.ParseNumber;
      FirstByte(content, offset);
      ok, sh := ParseKeyword(item, own, t);
      if ok {
        return;
      }
      if content[offset] == QUOTE {
        ok, sh := ParseStringValue(item, own, t);
      } else if content[offset] == '-' || Digit(content[offset]) {
        ok, sh := ParseNumberValue(item, own, t);
      } else if content[offset] == '[' {
        ok, sh := ParseArray(item, own, t);
      } else if content[offset] == '{' {
        ok, sh := ParseObject(item, own, t);
      }
    }

    // Set the type and step over the word.
    method TakeWord(item: Node, kind: Kind, ghost own: Shape, size: nat) returns (ghost sh: Shape)
      requires Ready() && Unfilled(item, own) && Blocks(own) <= mem.live
      requires kind == KNull || kind == KFalse || kind == KTrue
      modifies this`offset, item
      ensures offset == old(offset) + size && Filled(own, sh) && Blocks(sh) == Blocks(own)
      ensures Denotes(sh, if kind == KNull then LNull else if kind == KFalse then LFalse else LTrue)
      ensures item.next == old(item.next) && item.prev == old(item.prev)
    {
      hide Blocks, Separate, Unfilled, Wired, Filled, Denotes;
      sh := SetConstant(item, kind, own);
      ConstantDenotes(sh);
      offset := offset + size;
    }

    // null, false and true
    method ParseKeyword(item: Node, ghost own: Shape, ghost t: string) returns (done: bool, ghost sh: Shape)
      requires Ready() && Unfilled(item, own) && Blocks(own) <= mem.live
      requires t == content[offset..] && Terminated(t)
      modifies this`offset, item
      ensures done <==> P.ReadsNull(t) || P.ReadsFalse(t) || P.ReadsTrue(t)
      ensures done ==>
                var r := P.ParseValue(t, depth);
                && r.Ok? && old(offset) < offset < |content| && content[offset..] == r.rest && Denotes(sh, r.tree)
                && Filled(own, sh) && Blocks(sh) == Blocks(own)
      ensures !done ==> offset == old(offset) && Unfilled(item, own) && sh == own
      ensures item.next == old(item.next) && item.prev == old(item.prev)
    {
      hide P.ParseValue, P.ReadsNull, P.ReadsFalse, P.ReadsTrue, Blocks, Separate, Unfilled, Wired, Filled, Denotes,
           Terminated;
      sh := own;
      Word(content, offset);
      KeywordValue(t, depth);
      if offset + 4 <= |content| && content[offset..offset + 4] == "null" {
        sh := TakeWord(item, KNull, own, 4);
        return true, sh;
      }
      if offset + 5 <= |content| && content[offset..offset + 5] == "false" {
        sh := TakeWord(item, KFalse, own, 5);
        return true, sh;
      }
      if offset + 4 <= |content| && content[offset..offset + 4] == "true" {
        sh := TakeWord(item, KTrue, own, 4);
        return true, sh;
      }
      done := false;
    }

    method ParseStringValue(item: Node, ghost own: Shape, ghost t: string) returns (ok: bool, ghost sh: Shape)
      requires Ready() && Unfilled(item, own) && Blocks(own) <= mem.live
      requires t == content[offset..] && Terminated(t)
      modifies this`offset, item, mem
      ensures Apart() && mem.failures >= old(mem.failures)
      ensures var r := P.ParseString(t);
              && (ok ==>
                   r.Ok? && old(offset) < offset < |content| && content[offset..] == r.rest && Denotes(sh, r.tree))
              && (!ok ==> r.Fail? || mem.failures > old(mem.failures))
      ensures ok ==> Filled(own, sh) && fresh(Blocks(sh) - Blocks(own)) && mem.live == old(mem.live) + Blocks(sh)
                     && mem.failures == old(mem.failures)
      ensures !ok ==> mem.live == old(mem.live) && Unfilled(item, own)
      ensures item.next == old(item.next) && item.prev == old(item.prev)
    {
      hide Wired, Blocks, Separate, P.ParseQuoted;
      UnfilledParts(item, own);
      ok, sh := ParseString(item, own);
      if ok {
        LeafBlocks(own);
        LeafBlocks(sh);
        assert |content[offset..]| == |P.ParseString(t).rest| < |t|;
      }
    }

    method ParseNumberValue(item: Node, ghost own: Shape, ghost t: string) returns (ok: bool, ghost sh: Shape)
      requires Ready() && Unfilled(item, own) && Blocks(own) <= mem.live
      requires t == content[offset..] && Terminated(t) && (content[offset] == '-' || Digit(content[offset]))
      modifies this`offset, item
      ensures var r := P.ParseNumber(t);
              && ok == r.Ok?
              && (ok ==> old(offset) < offset < |content| && content[offset..] == r.rest && Denotes(sh, r.tree))
      ensures ok ==> Filled(own, sh) && Blocks(sh) == Blocks(own)
      ensures !ok ==> Unfilled(item, own)
      ensures item.next == old(item.next) && item.prev == old(item.prev)
    {
      hide Wired, Blocks, Separate, P.ReadNumeral, NumeralText, DoubleOf;
      UnfilledParts(item, own);
      ok, sh := ParseNumber(item, own);
      if ok {
        LeafBlocks(own);
        LeafBlocks(sh);
        SameSeparate(own, sh);
        assert |content[offset..]| == |P.ParseNumber(t).rest| < |t|;
      }
    }

    // skip_utf8_bom, called at the start of the buffer
    method SkipBom()
      requires Terminated(content) && offset == 0
      modifies this`offset
      ensures offset < |content| && content[offset..] == D.SkipBom(content)
    {
      if offset + 4 < |content| && content[0] == D.BOM[0] && content[1] == D.BOM[1] && content[2] == D.BOM[2] {
        offset := offset + 3;
      }
    }
  }

  // cJSON_ParseWithOpts: the tree of the value, or NULL with everything freed again.
  method ParseWithOpts(text: string, requireNul: bool, mem: Allocator)
    returns (root: Node?, end: nat, ghost sh: seq<Shape>)
    requires NUL !in text && mem !in mem.live
    modifies mem
    ensures var r := D.ParseDocument(Buffer(text), requireNul);
            && (root != null ==> r.Ok? && |sh| == 1 && sh[0].node == root && Wired(sh[0]) && Separate(sh[0])
                                 && Denotes(sh[0], r.tree) && end <= |text| && Buffer(text)[end..] == r.rest
                                 && root.next == null && root.prev == null && sh[0].key == null)
            && (root == null ==> r.Fail? || mem.failures > old(mem.failures))
    ensures root != null ==> fresh(Blocks(sh[0])) && mem.live == old(mem.live) + Blocks(sh[0])
                             && mem.failures == old(mem.failures)
    ensures root == null ==> mem.live == old(mem.live)
  {
    hide Wired, Separate, Blocks, Unfilled, Filled, Denotes, P.ParseValue, P.SkipBlanks, D.SkipBom, Owned;
    var buffer := new ParseBuffer(Buffer(text), mem);
    root, end, sh := null, 0, [];
    var item := mem.NewItem();
    if item == null {
      return;
    }
    ghost var own := Shape(item, null, "", null, DInvalid, []);
    FreshItem(item, own);
    buffer.SkipBom();
    buffer.SkipWhitespace();
    ghost var t := buffer.From(buffer.offset);
    var ok;
    ghost var tree;
    ok, tree := buffer.ParseValue(item, own, t);
    if !ok {
      UnfilledIsWired(item, own);
      DeleteTree(item, mem, own);
      return;
    }
    LiveBlocks(tree, mem);
    FilledRoot(own, tree);
    if requireNul {
      buffer.SkipWhitespace();
      FirstByte(buffer.content, buffer.offset);
      if buffer.offset >= |buffer.content| || buffer.content[buffer.offset] != NUL {
        DeleteTree(item, mem, tree);
        return;
      }
    }
    root, end, sh := item, buffer.offset, [tree];
  }
}
