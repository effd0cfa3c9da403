/**
 The whole engine on the heap: a tree is printed, the text parsed again.
 */
module RoundTrips {
  import opened CText
  import opened Numbers
  import opened JsonValue
  import opened Rendering
  import opened Nodes
  import opened Printer
  import P = Parser
  import D = Document
  import M = MinifySpec
  import I = MinifyInPlace

  // A second tree for the same value, its numbers as printed, unless memory runs out, the text is too long for an
  // int, or the value nests deeper than the parser goes; the text is freed in any case.
  method PrintAndParse(item: Node, format: bool, mem: Allocator, ghost sh: Shape)
    returns (root: Node?, ghost made: seq<Shape>)
    requires Sound(sh) && sh.node == item && Blocks(sh) <= mem.live && mem !in mem.live
    modifies mem
    ensures root != null ==> |made| == 1 && made[0].node == root && Wired(made[0]) && Separate(made[0])
    ensures root != null ==> fresh(Blocks(made[0])) && mem.live == old(mem.live) + Blocks(made[0])
    ensures root != null ==> Valued(made[0]) && ValueOf(made[0]) == Reread(ValueOf(sh))
    ensures root != null ==> (ValueOf(made[0]) == ValueOf(sh) <==> NumbersReadBack(ValueOf(sh)))
    ensures root != null ==> Nesting(ValueOf(sh)) <= NESTING_LIMIT
    ensures root == null ==> mem.live == old(mem.live)
    ensures root == null ==>
              || mem.failures > old(mem.failures) || |Render(ValueOf(sh), format, 0)| + 2 > INT_MAX
              || Nesting(ValueOf(sh)) > NESTING_LIMIT
  {
    hide Sound, Wired, Separate, Blocks, Render, ValueOf, Valued, Nesting, Reread, NumbersReadBack,
         Ints, D.ParseDocument;
    root, made := null, [];
    SoundHasCStrings(sh);
    var printed := Print(item, format, mem, sh);
    if printed == null {
      return;
    }
    ghost var text := Render(ValueOf(sh), format, 0);
    assert printed[..printed.Length - 1] == text;
    RenderHasNoNul(ValueOf(sh), format, 0);
    RoundTrip(ValueOf(sh), format, false);
    var end;
    root, end, made := P.ParseWithOpts(printed[..printed.Length - 1], false, mem);
    mem.Release(printed);
  }

  // The strings of a wired tree are C strings.
  lemma {:induction false} SoundHasCStrings(sh: Shape)
    requires Sound(sh)
    ensures Valued(sh) && CStrings(ValueOf(sh))
    decreases sh
  {
    hide Wired;
    match sh.data
    case DString(text) =>
      LeafParts(sh, false, 0);
      assert forall i | 0 <= i < |text| :: text[i] != NUL;
    case DArray =>
      ContainerParts(sh);
      forall i | 0 <= i < |sh.kids|
        ensures CStrings(ItemsOf(sh.kids)[i])
      {
        SoundHasCStrings(sh.kids[i]);
      }
    case DObject =>
      ContainerParts(sh);
      forall i | 0 <= i < |sh.kids|
        ensures NUL !in MembersOf(sh.kids)[i].key && CStrings(MembersOf(sh.kids)[i].value)
      {
        SoundHasCStrings(sh.kids[i]);
        KeyParts(sh.kids[i]);
      }
    case _ =>
  }

  // Minify turns the formatted print into the unformatted one, in place, exactly for
  // minifiable trees.
  method PrintAndMinify(item: Node, mem: Allocator, ghost sh: Shape) returns (printed: array?<char>)
    requires Sound(sh) && sh.node == item && Blocks(sh) <= mem.live && mem !in mem.live
    modifies mem
    ensures printed == null ==> mem.failures > old(mem.failures) || |Render(ValueOf(sh), true, 0)| + 2 > INT_MAX
    ensures printed != null ==> (Spells(printed, Render(ValueOf(sh), false, 0)) <==> M.Minifiable(ValueOf(sh)))
  {
    hide Sound, Blocks, Render, ValueOf, Valued, M.Strip, M.InString, M.Minifiable;
    SoundHasCStrings(sh);
    printed := Print(item, true, mem, sh);
    if printed == null {
      return;
    }
    ghost var text := Render(ValueOf(sh), true, 0);
    RenderHasNoNul(ValueOf(sh), true, 0);
    RenderHasNoNul(ValueOf(sh), false, 0);
    CStringOfTerminated(text, "");
    assert text + [NUL] + "" == text + [NUL];
    assert printed[|text|] == NUL;
    I.Minify(printed);
    M.StripAddsNothing(text, NUL);
    M.MinifyAgreesExactly(ValueOf(sh));
    SpelledBy(printed, M.Strip(text));
    if Spells(printed, Render(ValueOf(sh), false, 0)) {
      SpellsOnce(printed, M.Strip(text), Render(ValueOf(sh), false, 0));
    }
  }

  lemma SpelledBy(a: array<char>, s: string)
    requires |s| < a.Length && NUL !in s && a[..|s| + 1] == s + [NUL]
    ensures Spells(a, s)
  {
    var p := a[..|s| + 1];
    assert a[|s|] == p[|s|] && forall i | 0 <= i < |s| :: a[i] == p[i] == s[i] && s[i] in s;
  }
}
