/**
 Concrete syntax. A `Cst` records one way of writing a value, whitespace included.
 `Accepted` is the language `parse_value` accepts, `Rfc` the language of RFC 8259,
 except that every byte up to 32 is whitespace.
 */
module Grammar {
  import opened CText
  import opened StringLiteral
  import opened Numbers
  import opened JsonValue

  datatype Cst =
    | LNull
    | LFalse
    | LTrue
    | Quoted(body: string)
    | Written(numeral: Numeral)
    | Bracketed(blank: string, elements: seq<Element>)
    | Braced(blank: string, entries: seq<Entry>)

  // before value after
  datatype Element = Element(before: string, value: Cst, after: string)

  // before "key" gap : lead value after
  datatype Entry = Entry(before: string, key: string, gap: string, lead: string, value: Cst, after: string)

  // The text of `c` followed by `rest`.
  function Layout(c: Cst, rest: string): (t: string)
    ensures |t| > |rest| || (c.Written? && |t| >= |rest|)
    decreases c
  {
    match c
    case LNull => "null" + rest
    case LFalse => "false" + rest
    case LTrue => "true" + rest
    case Quoted(body) => [QUOTE] + (body + [QUOTE] + rest)
    case Written(n) => NumeralText(n) + rest
    case Bracketed(blank, es) => "[" + (if es == [] then blank + ("]" + rest) else LayoutElements(es, "]" + rest))
    case Braced(blank, es) => "{" + (if es == [] then blank + ("}" + rest) else LayoutEntries(es, "}" + rest))
  }

  // Elements separated by commas, then `rest`.
  function LayoutElements(es: seq<Element>, rest: string): (t: string)
    requires es != []
    ensures |t| >= |rest|
    decreases es
  {
    var e := es[0];
    e.before + Layout(e.value, e.after + (if |es| == 1 then rest else "," + LayoutElements(es[1..], rest)))
  }

  function LayoutEntries(es: seq<Entry>, rest: string): (t: string)
    requires es != []
    ensures |t| >= |rest|
    decreases es
  {
    var e := es[0];
    e.before + ([QUOTE] + (e.key + [QUOTE] + (e.gap + (":" + (e.lead +
      Layout(e.value, e.after + (if |es| == 1 then rest else "," + LayoutEntries(es[1..], rest))))))))
  }

  // ---- What is accepted ----

  predicate Blank(c: char) {
    c <= ' '
  }

  predicate AllBlank(s: string) {
    forall i | 0 <= i < |s| :: Blank(s[i])
  }

  predicate GoodBody(body: string) {
    Closed(body) && Decode(body).Some?
  }

  predicate GoodNumeral(n: Numeral) {
    && WellFormed(n) && n.sign != "+" && (n.sign == "" ==> n.whole != "")
    && |NumeralText(n)| <= MAX_NUMERAL
  }

  predicate Accepted(c: Cst)
    decreases c
  {
    match c
    case Quoted(body) => GoodBody(body)
    case Written(n) => GoodNumeral(n)
    case Bracketed(blank, es) => AllBlank(blank) && (es == [] || blank == "") && AcceptedElements(es)
    case Braced(blank, es) => AllBlank(blank) && (es == [] || blank == "") && AcceptedEntries(es)
    case _ => true
  }

  predicate AcceptedElements(es: seq<Element>)
    decreases es
  {
    forall i | 0 <= i < |es| :: AllBlank(es[i].before) && Accepted(es[i].value) && AllBlank(es[i].after)
  }

  predicate AcceptedEntries(es: seq<Entry>)
    decreases es
  {
    forall i | 0 <= i < |es| ::
      && AllBlank(es[i].before) && GoodBody(es[i].key) && AllBlank(es[i].gap)
      && AllBlank(es[i].lead) && Accepted(es[i].value) && AllBlank(es[i].after)
  }

  // ---- RFC 8259 ----

  // The body of a string of RFC 8259 section 7.
  ghost predicate RfcBody(body: string) {
    exists ps: seq<Piece> :: AllLegal(ps) && body == PiecesText(ps)
  }

  ghost predicate Rfc(c: Cst)
    decreases c
  {
    match c
    case Quoted(body) => RfcBody(body)
    case Written(n) => RfcNumeral(n)
    case Bracketed(blank, es) =>
      AllBlank(blank) && (es == [] || blank == "") && forall i | 0 <= i < |es| ::
        AllBlank(es[i].before) && Rfc(es[i].value) && AllBlank(es[i].after)
    case Braced(blank, es) =>
      AllBlank(blank) && (es == [] || blank == "") && forall i | 0 <= i < |es| ::
        && AllBlank(es[i].before) && RfcBody(es[i].key) && AllBlank(es[i].gap)
        && AllBlank(es[i].lead) && Rfc(es[i].value) && AllBlank(es[i].after)
    case _ => true
  }

  // No numeral is longer than what parse_number copies.
  predicate ShortNumerals(c: Cst)
    decreases c
  {
    match c
    case Written(n) => |NumeralText(n)| <= MAX_NUMERAL
    case Bracketed(_, es) => forall i | 0 <= i < |es| :: ShortNumerals(es[i].value)
    case Braced(_, es) => forall i | 0 <= i < |es| :: ShortNumerals(es[i].value)
    case _ => true
  }

  // Every RFC 8259 text is accepted, except for overlong numerals.
  lemma {:induction false} RfcIsAccepted(c: Cst)
    requires Rfc(c)
    ensures Accepted(c) <==> ShortNumerals(c)
    decreases c
  {
    match c
    case Quoted(body) =>
      RfcBodyIsGood(body);
    case Written(n) =>
    case Bracketed(_, es) =>
      forall i | 0 <= i < |es|
        ensures Accepted(es[i].value) <==> ShortNumerals(es[i].value)
      {
        RfcIsAccepted(es[i].value);
      }
    case Braced(_, es) =>
      forall i | 0 <= i < |es|
        ensures GoodBody(es[i].key) && (Accepted(es[i].value) <==> ShortNumerals(es[i].value))
      {
        RfcBodyIsGood(es[i].key);
        RfcIsAccepted(es[i].value);
      }
    case _ =>
  }

  lemma RfcBodyIsGood(body: string)
    requires RfcBody(body)
    ensures GoodBody(body)
  {
    var ps: seq<Piece> :| AllLegal(ps) && body == PiecesText(ps);
    LegalStringsDecode(ps);
  }

  // ---- What is accepted beyond RFC 8259 ----

  // A string of the parser is one of RFC 8259 exactly when it is strict.
  lemma BodyIsRfcExactly(body: string)
    ensures RfcBody(body) <==> GoodBody(body) && Strict(body)
  {
    if RfcBody(body) {
      RfcBodyIsGood(body);
      var ps: seq<Piece> :| AllLegal(ps) && body == PiecesText(ps);
      PiecesAreStrict(ps);
    }
    if GoodBody(body) && Strict(body) {
      var ps := StrictIsLegal(body);
    }
  }

  // All strings and keys are strict, and all numerals are those of RFC 8259.
  predicate StrictTree(c: Cst)
    decreases c
  {
    match c
    case Quoted(body) => Strict(body)
    case Written(n) => RfcNumeral(n)
    case Bracketed(_, es) => forall i | 0 <= i < |es| :: StrictTree(es[i].value)
    case Braced(_, es) => forall i | 0 <= i < |es| :: Strict(es[i].key) && StrictTree(es[i].value)
    case _ => true
  }

  // What the parser accepts is RFC 8259 exactly when it is strict.
  lemma {:induction false} AcceptedIsRfcExactly(c: Cst)
    requires Accepted(c)
    ensures Rfc(c) <==> StrictTree(c)
    decreases c
  {
    hide GoodBody, RfcBody, Strict, RfcNumeral;
    match c
    case Quoted(body) =>
      BodyIsRfcExactly(body);
    case Bracketed(_, es) =>
      forall i | 0 <= i < |es|
        ensures Rfc(es[i].value) <==> StrictTree(es[i].value)
      {
        AcceptedIsRfcExactly(es[i].value);
      }
    case Braced(_, es) =>
      forall i | 0 <= i < |es|
        ensures RfcBody(es[i].key) <==> Strict(es[i].key)
        ensures Rfc(es[i].value) <==> StrictTree(es[i].value)
      {
        BodyIsRfcExactly(es[i].key);
        AcceptedIsRfcExactly(es[i].value);
      }
    case _ =>
  }

  // ---- Meaning and nesting ----

  // A decoded string is seen as a C string: a decoded NUL ends it.
  function BodyMeaning(body: string): string
    requires GoodBody(body)
  {
    CString(Decode(body).value)
  }

  function Meaning(c: Cst): Json
    requires Accepted(c)
    decreases c
  {
    match c
    case LNull => Null
    case LFalse => False
    case LTrue => True
    case Quoted(body) => String(BodyMeaning(body))
    case Written(n) => Number(DoubleOf(n))
    case Bracketed(_, es) => Array(ElementsMeaning(es))
    case Braced(_, es) => Object(EntriesMeaning(es))
  }

  function ElementsMeaning(es: seq<Element>): (vs: seq<Json>)
    requires AcceptedElements(es)
    ensures |vs| == |es|
    decreases es
  {
    seq(|es|, i requires 0 <= i < |es| => Meaning(es[i].value))
  }

  function EntriesMeaning(es: seq<Entry>): (ms: seq<Member>)
    requires AcceptedEntries(es)
    ensures |ms| == |es|
    decreases es
  {
    seq(|es|, i requires 0 <= i < |es| => Member(BodyMeaning(es[i].key), Meaning(es[i].value)))
  }

  function Depth(c: Cst): nat
    decreases c
  {
    match c
    case Bracketed(_, es) => 1 + ElementsDepth(es)
    case Braced(_, es) => 1 + EntriesDepth(es)
    case _ => 0
  }

  function ElementsDepth(es: seq<Element>): nat
    decreases es
  {
    if es == [] then 0 else Max(Depth(es[0].value), ElementsDepth(es[1..]))
  }

  function EntriesDepth(es: seq<Entry>): nat
    decreases es
  {
    if es == [] then 0 else Max(Depth(es[0].value), EntriesDepth(es[1..]))
  }

  // ---- The value RFC 8259 gives a text ----

  // Some reading of the body as legal pieces; there is one, and its bytes are the string.
  ghost function PiecesOfBody(body: string): (ps: seq<Piece>)
    requires RfcBody(body)
    ensures AllLegal(ps) && body == PiecesText(ps)
  {
    var ps: seq<Piece> :| AllLegal(ps) && body == PiecesText(ps);
    ps
  }

  ghost function RfcString(body: string): string
    requires RfcBody(body)
  {
    PiecesBytes(PiecesOfBody(body))
  }

  ghost function RfcValue(c: Cst): Json
    requires Rfc(c)
    decreases c
  {
    match c
    case LNull => Null
    case LFalse => False
    case LTrue => True
    case Quoted(body) => String(RfcString(body))
    case Written(n) => Number(DoubleOf(n))
    case Bracketed(_, es) => Array(RfcItems(es))
    case Braced(_, es) => Object(RfcMembers(es))
  }

  ghost function RfcItems(es: seq<Element>): (vs: seq<Json>)
    requires forall i | 0 <= i < |es| :: Rfc(es[i].value)
    ensures |vs| == |es| && forall i | 0 <= i < |es| :: vs[i] == RfcValue(es[i].value)
    decreases es
  {
    seq(|es|, i requires 0 <= i < |es| => RfcValue(es[i].value))
  }

  ghost function RfcMembers(es: seq<Entry>): (ms: seq<Member>)
    requires forall i | 0 <= i < |es| :: RfcBody(es[i].key) && Rfc(es[i].value)
    ensures |ms| == |es| && forall i | 0 <= i < |es| :: ms[i] == Member(RfcString(es[i].key), RfcValue(es[i].value))
    decreases es
  {
    seq(|es|, i requires 0 <= i < |es| => Member(RfcString(es[i].key), RfcValue(es[i].value)))
  }

  // No string and no key writes the escape `\u0000`.
  ghost predicate NoNulEscape(c: Cst)
    requires Rfc(c)
    decreases c
  {
    match c
    case Quoted(body) => Scalar("0000") !in PiecesOfBody(body)
    case Bracketed(_, es) => forall i | 0 <= i < |es| :: NoNulEscape(es[i].value)
    case Braced(_, es) =>
      forall i | 0 <= i < |es| :: Scalar("0000") !in PiecesOfBody(es[i].key) && NoNulEscape(es[i].value)
    case _ => true
  }

  // The stored string is the one meant exactly when no NUL is escaped in it.
  lemma BodyMeansRfcString(body: string)
    requires RfcBody(body)
    ensures GoodBody(body)
    ensures BodyMeaning(body) == RfcString(body) <==> Scalar("0000") !in PiecesOfBody(body)
  {
    var ps := PiecesOfBody(body);
    LegalStringsDecode(ps);
    NulIsEscaped(ps);
    CStringWhole(PiecesBytes(ps));
  }

  lemma {:induction false} CStringWhole(s: string)
    ensures CString(s) == s <==> NUL !in s
  {
    if s != "" && s[0] != NUL {
      CStringWhole(s[1..]);
      assert s == [s[0]] + s[1..];
    }
  }

  // The parser's reading of an RFC 8259 text is the value meant, exactly when no string and
  // no key escapes a NUL.
  lemma {:induction false} MeaningIsRfcValue(c: Cst)
    requires Rfc(c) && ShortNumerals(c)
    ensures Accepted(c)
    ensures Meaning(c) == RfcValue(c) <==> NoNulEscape(c)
    decreases c
  {
    hide RfcBody, GoodBody, BodyMeaning, DoubleOf;
    RfcIsAccepted(c);
    match c
    case Quoted(body) =>
      BodyMeansRfcString(body);
    case Bracketed(_, es) =>
      var x, y := Meaning(c).items, RfcValue(c).items;
      forall i | 0 <= i < |es|
        ensures x[i] == y[i] <==> NoNulEscape(es[i].value)
      {
        assert x[i] == ElementsMeaning(es)[i] == Meaning(es[i].value);
        MeaningIsRfcValue(es[i].value);
      }
      assert x == y <==> forall i | 0 <= i < |es| :: x[i] == y[i];
    case Braced(_, es) =>
      var x, y := Meaning(c).members, RfcValue(c).members;
      forall i | 0 <= i < |es|
        ensures x[i] == y[i] <==> Scalar("0000") !in PiecesOfBody(es[i].key) && NoNulEscape(es[i].value)
      {
        assert x[i] == EntriesMeaning(es)[i] == Member(BodyMeaning(es[i].key), Meaning(es[i].value));
        MeaningIsRfcValue(es[i].value);
        BodyMeansRfcString(es[i].key);
      }
      assert x == y <==> forall i | 0 <= i < |es| :: x[i] == y[i];
    case _ =>
  }
}
