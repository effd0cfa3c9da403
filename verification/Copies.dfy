/**
 Building trees: arrays from C arrays and deep copies. Either the whole tree is built or
 everything allocated on the way is freed again.
 */
module Copies {
  import opened CText
  import opened Nodes
  import opened Lists

  // A new last child: `newitem->child` for the first one, the links of its predecessor for
  // the others.
  method AttachLast(parent: Node, last: Node?, n: Node, ghost kids: seq<Shape>, ghost x: Shape)
    requires Chain(kids) && SeparateAll(kids) && Tree(x) && x.node == n && n.next == null
    requires parent.child == First(kids) && last == NodeAt(kids, |kids| - 1)
    requires Blocks(x) !! BlocksOf(kids) && parent !in BlocksOf(kids) && parent !in Blocks(x)
    modifies parent`child, n, Block(last)
    ensures Chain(kids + [x]) && SeparateAll(kids + [x]) && BlocksOf(kids + [x]) == BlocksOf(kids) + Blocks(x)
    ensures parent.child == First(kids + [x])
    ensures last != parent
  {
    hide Tree, Wired, Separate, SeparateAll, Blocks, BlocksOf, Chain, Open;
    TreeHas(x);
    SeparateSnoc(kids, x);
    BlocksAppend(kids, x);
    EndsInside(kids);
    if last != null {
      Suffix(last, n, kids, x);
      ChainSnoc(kids, x);
    } else {
      NothingOpen(n);
      parent.child := n;
      assert kids == [];
      ChainSnoc(kids, x);
    }
  }

  lemma EndsInside(kids: seq<Shape>)
    ensures kids != [] ==> kids[0].node in BlocksOf(kids) && kids[|kids| - 1].node in BlocksOf(kids)
  {
    hide Blocks;
    assert kids != [] ==> kids[0].node in Roots(kids) && kids[|kids| - 1].node in Roots(kids);
  }

  lemma NothingOpen(n: Node)
    ensures Open([], n)
  {
  }

  // cJSON_Delete on a tree whose list of children may still be open.
  method DeletePartial(item: Node, mem: Allocator, ghost sh: Shape)
    requires sh.node == item && item.key == sh.key && item.valuestring == sh.text && item.child == First(sh.kids)
    requires Chain(sh.kids) && Separate(sh) && item.next == null
    requires Blocks(sh) <= mem.live && mem !in mem.live
    modifies mem
    ensures mem.live == old(mem.live) - Blocks(sh) && mem.failures == old(mem.failures)
  {
    hide Separate, Blocks, BlocksOf, Chain, OwnedList;
    ChainIsOwned(sh.kids);
    OneTree(sh);
    Delete(item, mem, [sh]);
  }

  // ---- Numbers ----

  ghost function NumberShape(item: Node, num: real): Shape {
    Shape(item, null, "", null, DNumber(num), [])
  }

  method CreateNumber(num: real, mem: Allocator) returns (item: Node?)
    modifies mem
    ensures item == null ==> mem.live == old(mem.live) && mem.failures > old(mem.failures)
    ensures item != null ==> fresh(item) && item.next == null && item.prev == null
    ensures item != null ==> Tree(NumberShape(item, num)) && Blocks(NumberShape(item, num)) == {item}
    ensures item != null ==> mem.live == old(mem.live) + {item} && mem.failures == old(mem.failures)
  {
    item := mem.NewItem();
    if item != null {
      ghost var own := Shape(item, null, "", null, DInvalid, []);
      FreshItem(item, own);
      ghost var sh := SetNumber(item, num, own);
      NothingSeparate();
    }
  }

  ghost function IntArrayShape(a: Node, kids: seq<Shape>): Shape {
    Shape(a, null, "", null, DArray, kids)
  }

  // An array node without its children.
  ghost predicate EmptyArray(a: Node)
    reads a
  {
    a.kind == KArray && a.key == null && a.valuestring == null && a.next == null && a.prev == null
  }

  // The children hold the numbers in order.
  ghost predicate Hold(kids: seq<Shape>, numbers: seq<int>) {
    |kids| == |numbers| && forall i | 0 <= i < |kids| :: kids[i] == NumberShape(kids[i].node, numbers[i] as real)
  }

  lemma HoldNothing()
    ensures Hold([], [])
  {
  }

  lemma HoldSnoc(kids: seq<Shape>, numbers: seq<int>, n: Node, number: int)
    requires Hold(kids, numbers)
    ensures Hold(kids + [NumberShape(n, number as real)], numbers + [number])
  {
  }

  // cJSON_CreateIntArray
  method CreateIntArray(numbers: array?<int>, count: int, mem: Allocator) returns (a: Node?, ghost kids: seq<Shape>)
    requires (numbers != null ==> count <= numbers.Length) && mem !in mem.live
    modifies mem
    ensures a == null ==>
              mem.live == old(mem.live) && (count < 0 || numbers == null || mem.failures > old(mem.failures))
    ensures a != null ==> count >= 0 && numbers != null && Tree(IntArrayShape(a, kids)) && Hold(kids, numbers[..count])
    ensures a != null ==> fresh(Blocks(IntArrayShape(a, kids))) && a.next == null && a.prev == null
    ensures a != null ==>
              mem.live == old(mem.live) + Blocks(IntArrayShape(a, kids)) && mem.failures == old(mem.failures)
  {
    hide Tree, Wired, Separate, SeparateAll, Blocks, BlocksOf, Chain, Open, Linked, AllWired, WiredList, Hold;
    a, kids := null, [];
    HoldNothing();
    if count < 0 || numbers == null {
      return;
    }
    a := mem.NewItem();
    if a == null {
      return;
    }
    a.kind := KArray;
    NoChildren();
    var i := 0;
    var p: Node? := null;
    assert numbers[..0] == [];
    while i < count
      invariant 0 <= i <= count && a != null && fresh(a) && EmptyArray(a)
      invariant Chain(kids) && SeparateAll(kids) && a !in BlocksOf(kids) && fresh(BlocksOf(kids))
      invariant a.child == First(kids) && p == NodeAt(kids, |kids| - 1)
      invariant mem.live == old(mem.live) + {a} + BlocksOf(kids) && mem.failures == old(mem.failures)
      invariant Hold(kids, numbers[..i])
    {
      var n := CreateNumber(numbers[i] as real, mem);
      if n == null {
        ArrayBlocks(a, kids);
        DeletePartial(a, mem, IntArrayShape(a, kids));
        a := null;
        return;
      }
      EndsInside(kids);
      assert numbers[..i + 1] == numbers[..i] + [numbers[i]];
      HoldSnoc(kids, numbers[..i], n, numbers[i]);
      AttachLast(a, p, n, kids, NumberShape(n, numbers[i] as real));
      kids := kids + [NumberShape(n, numbers[i] as real)];
      p := n;
      i := i + 1;
    }
    ArrayBlocks(a, kids);
    EndsInside(kids);
    if a.child != null {
      CloseList(a.child, p, kids);
    }
    CloseTree(IntArrayShape(a, kids));
  }

  lemma NoChildren()
    ensures Chain([]) && WiredList([]) && SeparateAll([]) && BlocksOf([]) == {}
  {
  }

  lemma ArrayBlocks(a: Node, kids: seq<Shape>)
    ensures Blocks(IntArrayShape(a, kids)) == {a} + BlocksOf(kids)
    ensures SeparateAll(kids) && a !in BlocksOf(kids) ==> Separate(IntArrayShape(a, kids))
  {
  }

  lemma CloseTree(sh: Shape)
    requires Labelled(sh) && sh.node.child == First(sh.kids) && WiredList(sh.kids) && Separate(sh)
    ensures Tree(sh)
  {
  }

  lemma HoldAt(kids: seq<Shape>, numbers: seq<int>, i: nat)
    requires Hold(kids, numbers)
    ensures |kids| == |numbers| && (i < |kids| ==> kids[i] == NumberShape(kids[i].node, numbers[i] as real))
  {
  }

  lemma ChildIsTree(sh: Shape, i: nat)
    requires Tree(sh) && i < |sh.kids|
    ensures Tree(sh.kids[i]) && Blocks(sh.kids[i]) <= Blocks(sh) && sh.kids[i].node.next == NodeAt(sh.kids, i + 1)
  {
    hide Wired, Separate, Blocks;
    TreeParts(sh);
  }

  // cJSON_AddItemToArray on a child that another array still holds. The array it joins stays
  // well-formed exactly when it was empty or the child is the last one of the other array: any
  // other child brings the rest of its old siblings along.
  method AddItemOfOther(numbers: array<int>, which: nat, others: array<int>, mem: Allocator)
    returns (other: Node?, ghost kids: seq<Shape>)
    requires which < numbers.Length && mem !in mem.live
    modifies mem
    ensures other == null ==> mem.failures > old(mem.failures) && mem.live == old(mem.live)
    ensures other != null ==> |kids| == others.Length + 1 && Hold(kids, others[..] + [numbers[which]])
    ensures other != null ==>
              (Tree(IntArrayShape(other, kids)) <==> others.Length == 0 || which == numbers.Length - 1)
  {
    hide Tree, Wired, Separate, SeparateAll, Blocks, BlocksOf, Linked, AllWired, WiredList, Hold;
    var source;
    ghost var items;
    other, kids := null, [];
    source, items := CreateIntArray(numbers, numbers.Length, mem);
    if source == null {
      return;
    }
    ghost var sh := IntArrayShape(source, items);
    assert numbers[..numbers.Length] == numbers[..] && others[..others.Length] == others[..];
    HoldAt(items, numbers[..], which);
    TreeHas(sh);
    BlocksAllocated(sh);
    other, kids := CreateIntArray(others, others.Length, mem);
    if other == null {
      DeleteTree(source, mem, sh);
      return;
    }
    var item := GetArrayItem(source, which, sh);
    ChildIsTree(sh, which);
    HoldAt(kids, others[..], 0);
    ArrayBlocks(other, kids);
    ghost var ok := AddItemToArray(other, item, IntArrayShape(other, kids), items[which]);
    HoldSnoc(kids, others[..], item, numbers[which]);
    kids := kids + [items[which]];
  }

  // ---- Deep copies ----

  // Every text a node owns is terminated, whatever the type of the node.
  ghost predicate Tidy(sh: Shape)
    reads Blocks(sh)
    decreases sh
  {
    (sh.text != null ==> NUL in sh.text[..]) && TidyAll(sh.kids)
  }

  ghost predicate TidyAll(kids: seq<Shape>)
    reads BlocksOf(kids)
    decreases kids
  {
    forall i | 0 <= i < |kids| :: Tidy(kids[i])
  }

  // In particular when only string nodes own one.
  lemma {:induction false} StringsAreTidy(sh: Shape)
    requires Wired(sh) && OnlyStrings(sh)
    ensures Tidy(sh)
    decreases sh
  {
    if sh.text != null {
      assert sh.text[..][|sh.data.text|] == NUL;
    }
    forall i | 0 <= i < |sh.kids|
      ensures Tidy(sh.kids[i])
    {
      StringsAreTidy(sh.kids[i]);
    }
  }

  ghost predicate OnlyStrings(sh: Shape)
    decreases sh
  {
    (sh.text != null ==> sh.data.DString?) && forall i | 0 <= i < |sh.kids| :: OnlyStrings(sh.kids[i])
  }

  // The same tree in other blocks.
  ghost predicate SameTree(a: Shape, b: Shape)
    decreases a
  {
    && a.data == b.data && a.name == b.name && (a.key == null <==> b.key == null)
    && (a.text == null <==> b.text == null)
    && SameTrees(a.kids, b.kids)
  }

  ghost predicate SameTrees(a: seq<Shape>, b: seq<Shape>)
    decreases a
  {
    |a| == |b| && forall i | 0 <= i < |a| :: SameTree(a[i], b[i])
  }

  // A copy denotes the same value.
  lemma {:induction false} SameTreeSameValue(a: Shape, b: Shape)
    requires SameTree(a, b) && Valued(a)
    ensures Valued(b) && ValueOf(a) == ValueOf(b)
    decreases a
  {
    if a.data.DArray? || a.data.DObject? {
      forall i | 0 <= i < |a.kids|
        ensures Valued(b.kids[i]) && ValueOf(a.kids[i]) == ValueOf(b.kids[i]) && a.kids[i].name == b.kids[i].name
      {
        SameTreeSameValue(a.kids[i], b.kids[i]);
      }
      assert ItemsOf(a.kids) == ItemsOf(b.kids) && MembersOf(a.kids) == MembersOf(b.kids);
    }
  }

  // cJSON_strdup
  method StrDup(text: array<char>, mem: Allocator, ghost s: string) returns (copy: array?<char>)
    requires Spells(text, s) && mem !in mem.live
    modifies mem
    ensures copy == null ==> mem.live == old(mem.live) && mem.failures > old(mem.failures)
    ensures copy != null ==> fresh(copy) && copy.Length == |s| + 1 && Spells(copy, s)
    ensures copy != null ==> mem.live == old(mem.live) + {copy} && mem.failures == old(mem.failures)
  {
    var length := 0;
    while text[length] != NUL
      invariant length <= |s|
      decreases |s| - length
    {
      length := length + 1;
    }
    length := length + 1;
    copy := mem.NewString(length);
    if copy != null {
      forall i | 0 <= i < length {
        copy[i] := text[i];
      }
    }
  }

  // A copy of the root `sh` so far: what it owns, and no children.
  ghost predicate Begun(n: Node, own: Shape)
    reads n
  {
    && own.node == n && own.kids == [] && n.key == own.key && n.valuestring == own.text && n.child == null
    && n.next == null && n.prev == null && (own.key != null ==> own.key != own.text)
  }

  method CopyText(item: Node, mem: Allocator, ghost sh: Shape) returns (text: array?<char>)
    requires Labelled(sh) && sh.node == item && item.valuestring != null && NUL in item.valuestring[..]
             && mem !in mem.live
    modifies mem
    ensures text == null ==> mem.live == old(mem.live) && mem.failures > old(mem.failures)
    ensures text != null ==> fresh(text) && (sh.data.DString? ==> Spells(text, sh.data.text))
    ensures text != null ==> mem.live == old(mem.live) + {text} && mem.failures == old(mem.failures)
  {
    SpellsPrefix(item.valuestring);
    ghost var s := CString(item.valuestring[..]);
    if sh.data.DString? {
      SpellsOnce(item.valuestring, s, sh.data.text);
    }
    text := StrDup(item.valuestring, mem, s);
  }

  // "Copy over all vars": type, numbers and strings.
  method CopyLabel(newitem: Node, item: Node, mem: Allocator, ghost sh: Shape) returns (ok: bool, ghost own: Shape)
    requires Labelled(sh) && sh.node == item && (sh.text != null ==> NUL in sh.text[..]) && mem !in mem.live
    requires newitem != item && Begun(newitem, Shape(newitem, null, "", null, DInvalid, [])) && newitem in mem.live
    requires newitem !in Own(sh) && Own(sh) <= mem.live
    modifies newitem, mem
    ensures Begun(newitem, own) && fresh(Own(own) - {newitem})
    ensures mem.live == old(mem.live) + Own(own)
    ensures ok ==> Labelled(own) && mem.failures == old(mem.failures) && own.data == sh.data && own.name == sh.name
    ensures ok ==> (own.key == null <==> sh.key == null) && (own.text == null <==> sh.text == null)
    ensures !ok ==> mem.failures > old(mem.failures)
  {
    hide CString;
    own := Shape(newitem, null, "", null, DInvalid, []);
    newitem.kind := item.kind;
    newitem.valueint := item.valueint;
    newitem.valuedouble := item.valuedouble;
    if item.valuestring != null {
      var text := CopyText(item, mem, sh);
      newitem.valuestring := text;
      if text == null {
        ok := false;
        return;
      }
      own := own.(text := text);
    }
    if item.key != null {
      var key := StrDup(item.key, mem, sh.name);
      newitem.key := key;
      if key == null {
        ok := false;
        return;
      }
      own := own.(key := key);
    }
    own := own.(data := sh.data, name := sh.name);
    ok := true;
  }

  lemma SourceParts(sh: Shape)
    requires Wired(sh) && Tidy(sh)
    ensures Labelled(sh) && sh.node.child == First(sh.kids) && WiredList(sh.kids) && TidyAll(sh.kids)
    ensures sh.text != null ==> NUL in sh.text[..]
    ensures Own(sh) <= Blocks(sh) && BlocksOf(sh.kids) <= Blocks(sh)
  {
    hide Labelled, WiredList, BlocksOf;
  }

  lemma OwnParts(own: Shape)
    ensures own.node in Own(own) && Optional(own.key) <= Own(own) && Optional(own.text) <= Own(own)
  {
  }

  lemma LeafIsPartial(own: Shape)
    requires own.kids == [] && (own.key != null ==> own.key != own.text)
    ensures Chain(own.kids) && Separate(own) && Blocks(own) == Own(own)
  {
    NoChildren();
  }

  lemma LeafIsTree(own: Shape)
    requires own.kids == [] && (own.key != null ==> own.key != own.text) && Labelled(own) && own.node.child == null
    ensures Tree(own) && Blocks(own) == Own(own)
  {
    LeafIsPartial(own);
  }

  lemma SameLeaf(sh: Shape, own: Shape)
    requires own.kids == [] && own.data == sh.data && own.name == sh.name
    requires (own.key == null <==> sh.key == null) && (own.text == null <==> sh.text == null)
    ensures SameTree(sh.(kids := []), own)
  {
  }

  lemma SameWithKids(sh: Shape, copy: Shape)
    requires copy.data == sh.data && copy.name == sh.name && SameTrees(sh.kids, copy.kids)
    requires (copy.key == null <==> sh.key == null) && (copy.text == null <==> sh.text == null)
    ensures SameTree(sh, copy)
  {
  }

  lemma SameTreesSnoc(kids: seq<Shape>, i: nat, made: seq<Shape>, x: Shape)
    requires i < |kids| && SameTrees(kids[..i], made) && SameTree(kids[i], x)
    ensures SameTrees(kids[..i + 1], made + [x])
  {
    hide SameTree;
    forall k | 0 <= k <= i
      ensures SameTree(kids[..i + 1][k], (made + [x])[k])
    {
      assert k < i ==> SameTree(kids[..i][k], made[k]);
    }
  }

  // The next child to copy.
  lemma SourceAt(kids: seq<Shape>, i: nat)
    requires WiredList(kids) && TidyAll(kids) && i < |kids|
    ensures Wired(kids[i]) && Tidy(kids[i]) && kids[i].node.next == NodeAt(kids, i + 1)
            && Blocks(kids[i]) <= BlocksOf(kids)
  {
    hide Wired, Tidy, Blocks;
  }

  // A tree from its root and its open list of children.
  lemma PartialParts(own: Shape, made: seq<Shape>)
    requires SeparateAll(made) && Own(own) !! BlocksOf(made) && (own.key != null ==> own.key != own.text)
    ensures Separate(own.(kids := made)) && Blocks(own.(kids := made)) == Own(own) + BlocksOf(made)
  {
    hide BlocksOf, SeparateAll;
  }

  lemma CloseCopy(own: Shape, made: seq<Shape>)
    requires Labelled(own) && own.node.child == First(made) && WiredList(made) && Separate(own.(kids := made))
    ensures Tree(own.(kids := made))
  {
    hide WiredList, Separate;
  }

  // The body of that walk.
  method CopyChild(newitem: Node, child: Node, next: Node?, mem: Allocator, ghost kids: seq<Shape>, ghost i: nat,
                   ghost own: Shape, ghost made: seq<Shape>)
    returns (newchild: Node?, ghost copy: seq<Shape>)
    requires WiredList(kids) && TidyAll(kids) && i < |kids| && child == kids[i].node
    requires BlocksOf(kids) <= mem.live && mem !in mem.live && newitem !in BlocksOf(kids)
    requires PartlyCopied(newitem, own, made) && Own(own) + BlocksOf(made) <= mem.live && SameTrees(kids[..i], made)
    requires Own(own) !! BlocksOf(made) && next == NodeAt(made, |made| - 1)
    requires BlocksOf(kids) !! BlocksOf(made)
    modifies newitem`child, mem, Block(next)
    ensures WiredList(kids) && TidyAll(kids)
    ensures newchild == null ==>
              mem.live == old(mem.live) - Own(own) - BlocksOf(made) && mem.failures > old(mem.failures)
    ensures newchild != null ==>
              |copy| == 1 && PartlyCopied(newitem, own, made + copy) && SameTrees(kids[..i + 1], made + copy)
    ensures newchild != null ==> newchild == copy[0].node && BlocksOf(made + copy) == BlocksOf(made) + Blocks(copy[0])
    ensures newchild != null ==> fresh(Blocks(copy[0])) && mem.live == old(mem.live) + Blocks(copy[0])
    ensures newchild != null ==> mem.failures == old(mem.failures)
    decreases kids, 0
  {
    hide Tree, Wired, Separate, SeparateAll, Blocks, BlocksOf, Chain, Open, Linked, AllWired, WiredList, Tidy, TidyAll,
         SameTree, Labelled, SameTrees, Own;
    OwnParts(own);
    SourceAt(kids, i);
    newchild, copy := Duplicate(child, true, mem, kids[i]);
    if newchild == null {
      PartialParts(own, made);
      DeletePartial(newitem, mem, own.(kids := made));
      return;
    }
    EndsInside(made);
    assert copy == [copy[0]];
    AttachLast(newitem, next, newchild, made, copy[0]);
    SameTreesSnoc(kids, i, made, copy[0]);
  }

  // A labelled root with an open list of children.
  ghost predicate PartlyCopied(n: Node, own: Shape, made: seq<Shape>)
    reads n, Own(own), BlocksOf(made)
  {
    && own.node == n && Labelled(own) && n.key == own.key && n.valuestring == own.text
    && n.next == null && n.prev == null && (own.key != null ==> own.key != own.text)
    && n.child == First(made) && Chain(made) && SeparateAll(made)
  }

  // "Walk the ->next chain for the child": copy every child behind the one before. On a
  // failure the copy made so far is deleted, root included.
  method CopyChildren(newitem: Node, first: Node?, mem: Allocator, ghost kids: seq<Shape>, ghost own: Shape)
    returns (ok: bool, ghost made: seq<Shape>)
    requires WiredList(kids) && TidyAll(kids) && first == First(kids)
    requires BlocksOf(kids) <= mem.live && mem !in mem.live
    requires Begun(newitem, own) && Labelled(own) && Own(own) <= mem.live && newitem !in BlocksOf(kids)
    modifies newitem, mem
    ensures WiredList(kids) && TidyAll(kids)
    ensures ok ==> Tree(own.(kids := made)) && Blocks(own.(kids := made)) == Own(own) + BlocksOf(made)
    ensures ok ==> SameTrees(kids, made) && fresh(BlocksOf(made)) && newitem.next == null && newitem.prev == null
    ensures ok ==> mem.live == old(mem.live) + BlocksOf(made) && mem.failures == old(mem.failures)
    ensures !ok ==> mem.live == old(mem.live) - Own(own) && mem.failures > old(mem.failures)
    decreases kids, 1
  {
    hide Tree, Wired, Separate, SeparateAll, Blocks, BlocksOf, Chain, Open, Linked, AllWired, WiredList, Tidy,
         TidyAll, SameTree, Labelled, SameTrees, Own;
    made := [];
    OwnParts(own);
    NoChildren();
    NothingSame(kids);
    FirstNext(kids);
    var child := first;
    var next: Node? := null;
    ghost var i := 0;
    while child != null
      invariant i <= |kids| && child == NodeAt(kids, i) && WiredList(kids) && TidyAll(kids) && Labelled(own)
      invariant newitem.key == own.key && newitem.valuestring == own.text && newitem.next == null
                && newitem.prev == null
      invariant newitem.child == First(made) && next == NodeAt(made, |made| - 1)
      invariant Chain(made) && SeparateAll(made) && fresh(BlocksOf(made))
      invariant mem.live == old(mem.live) + BlocksOf(made) && mem.failures == old(mem.failures)
      invariant SameTrees(kids[..i], made)
      decreases |kids| - i
    {
      EndsInside(made);
      var newchild, copy := CopyChild(newitem, child, next, mem, kids, i, own, made);
      if newchild == null {
        ok := false;
        return;
      }
      SourceAt(kids, i);
      made := made + copy;
      next := newchild;
      child := child.next;
      i := i + 1;
    }
    assert kids[..i] == kids;
    PartialParts(own, made);
    EndsInside(made);
    if newitem.child != null {
      CloseList(newitem.child, next, made);
    } else {
      NoChildren();
    }
    CloseCopy(own, made);
    ok := true;
  }

  lemma NothingSame(kids: seq<Shape>)
    ensures SameTrees(kids[..0], [])
  {
  }

  lemma FirstNext(kids: seq<Shape>)
    ensures First(kids) == NodeAt(kids, 0)
  {
  }

  // cJSON_Duplicate
  method Duplicate(item: Node?, recurse: bool, mem: Allocator, ghost sh: Shape)
    returns (newitem: Node?, ghost made: seq<Shape>)
    requires item != null ==> Wired(sh) && Tidy(sh) && sh.node == item && Blocks(sh) <= mem.live
    requires mem !in mem.live
    modifies mem
    ensures item != null ==> Wired(sh)
    ensures newitem == null ==> mem.live == old(mem.live) && (item == null || mem.failures > old(mem.failures))
    ensures newitem != null ==> item != null && |made| == 1 && made[0].node == newitem && Tree(made[0])
    ensures newitem != null ==> SameTree(if recurse then sh else sh.(kids := []), made[0])
    ensures newitem != null ==> fresh(Blocks(made[0])) && newitem.next == null && newitem.prev == null
    ensures newitem != null ==> mem.live == old(mem.live) + Blocks(made[0]) && mem.failures == old(mem.failures)
    decreases sh, 1
  {
    hide Tree, Wired, Separate, SeparateAll, Blocks, BlocksOf, Chain, Open, Linked, AllWired, WiredList, Tidy,
         SameTree, Labelled;
    newitem, made := null, [];
    if item == null {
      return;
    }
    newitem := mem.NewItem();
    if newitem == null {
      return;
    }
    SourceParts(sh);
    var ok;
    ghost var own;
    ok, own := CopyLabel(newitem, item, mem, sh);
    if !ok {
      LeafIsPartial(own);
      DeletePartial(newitem, mem, own);
      newitem := null;
      return;
    }
    if !recurse {
      LeafIsTree(own);
      SameLeaf(sh, own);
      made := [own];
      return;
    }
    ghost var kids;
    ok, kids := CopyChildren(newitem, item.child, mem, sh.kids, own);
    if !ok {
      newitem := null;
      return;
    }
    ghost var copy := own.(kids := kids);
    SameWithKids(sh, copy);
    made := [copy];
  }

  // The two trees share nothing: whichever is deleted, the other stays as it is, and live.
  method DuplicateThenDelete(item: Node, deleteCopy: bool, mem: Allocator, ghost sh: Shape)
    returns (newitem: Node?, ghost made: seq<Shape>)
    requires Tree(sh) && Tidy(sh) && sh.node == item && item.next == null && Blocks(sh) <= mem.live && mem !in mem.live
    modifies mem
    ensures newitem == null ==> mem.failures > old(mem.failures)
    ensures newitem == null ==> mem.live == if deleteCopy then old(mem.live) else old(mem.live) - Blocks(sh)
    ensures newitem == null && deleteCopy ==> Tree(sh)
    ensures newitem != null ==> |made| == 1 && made[0].node == newitem && SameTree(sh, made[0])
    ensures newitem != null && deleteCopy ==> Tree(sh) && mem.live == old(mem.live)
    ensures newitem != null && !deleteCopy ==> Tree(made[0]) && mem.live == old(mem.live) - Blocks(sh) + Blocks(made[0])
  {
    hide Tree, Wired, Separate, Blocks, Tidy, SameTree;
    TreeHas(sh);
    newitem, made := Duplicate(item, true, mem, sh);
    TreeFrom(sh);
    if !deleteCopy {
      DeleteTree(item, mem, sh);
    } else if newitem != null {
      TreeHas(made[0]);
      DeleteTree(newitem, mem, made[0]);
    }
  }
}
