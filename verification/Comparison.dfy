/**
 Key lookup and cJSON_Compare as they walk the heap.
 */
module Comparison {
  import opened CText
  import opened Numbers
  import opened JsonValue
  import opened Nodes
  import opened Lists
  import opened CompareSpec

  // ---- C strings ----

  // case_insensitive_strcmp
  method CaseInsensitiveStrcmp(string1: array?<char>, string2: array?<char>, ghost s: string, ghost t: string)
    returns (r: int)
    requires (string1 != null ==> Spells(string1, s)) && (string2 != null ==> Spells(string2, t))
    ensures r == 0 <==> string1 != null && string2 != null && Fold(s) == Fold(t)
    ensures r == 0 <==> string1 != null && string2 != null && KeysAgree(s, t, false)
  {
    KeysAgreeExactly(s, t, false);
    if string1 == null || string2 == null {
      return 1;
    }
    if string1 == string2 {
      SpellsOnce(string1, s, t);
      return 0;
    }
    var i := 0;
    while ToLower(string1[i]) == ToLower(string2[i])
      invariant i <= |s| && i <= |t| && forall k | 0 <= k < i :: ToLower(s[k]) == ToLower(t[k])
      decreases |s| - i
    {
      if string1[i] == NUL {
        assert i == |s| == |t|;
        return 0;
      }
      i := i + 1;
    }
    r := ToLower(string1[i]) as int - ToLower(string2[i]) as int;
    FoldsAgree(s, t);
  }

  lemma FoldsAgree(s: string, t: string)
    ensures Fold(s) == Fold(t) <==> |s| == |t| && forall k | 0 <= k < |s| :: ToLower(s[k]) == ToLower(t[k])
  {
    var f, g := Fold(s), Fold(t);
    assert |s| == |t| ==> forall k | 0 <= k < |s| :: f[k] == ToLower(s[k]) && g[k] == ToLower(t[k]);
  }

  // strcmp
  method Strcmp(string1: array<char>, string2: array<char>, ghost s: string, ghost t: string) returns (r: int)
    requires Spells(string1, s) && Spells(string2, t)
    ensures r == 0 <==> s == t
  {
    var i := 0;
    while string1[i] == string2[i] && string1[i] != NUL
      invariant i <= |s| && i <= |t| && forall k | 0 <= k < i :: s[k] == t[k]
      decreases |s| - i
    {
      i := i + 1;
    }
    r := string1[i] as int - string2[i] as int;
  }

  // ---- Lookup ----

  ghost function OneLater(i: int): int {
    if i < 0 then -1 else i + 1
  }

  // The child get_object_item finds. A case-sensitive search ends at a child without a key.
  ghost function FindKey(kids: seq<Shape>, name: string, cs: bool): (i: int)
    ensures -1 <= i < |kids|
  {
    if kids == [] then -1
    else if kids[0].key == null then if cs then -1 else OneLater(FindKey(kids[1..], name, cs))
    else if KeyOf(kids[0].name, cs) == KeyOf(name, cs) then 0
    else OneLater(FindKey(kids[1..], name, cs))
  }

  lemma FindStep(kids: seq<Shape>, i: nat, name: string, cs: bool)
    requires i < |kids|
    ensures FindKey(kids[i..], name, cs) ==
            if kids[i].key == null then if cs then -1 else OneLater(FindKey(kids[i + 1..], name, cs))
            else if KeyOf(kids[i].name, cs) == KeyOf(name, cs) then 0
            else OneLater(FindKey(kids[i + 1..], name, cs))
  {
    hide KeyOf;
    assert kids[i..][1..] == kids[i + 1..];
  }

  // The child at `i` is the first with that key; where case counts, every child before it has
  // a key, where it does not, children without a key are passed over.
  ghost predicate IsFound(kids: seq<Shape>, i: nat, name: string, cs: bool)
    requires i < |kids|
  {
    && kids[i].key != null && KeysAgree(kids[i].name, name, cs)
    && forall k | 0 <= k < i ::
         if kids[k].key == null then !cs else !KeysAgree(kids[k].name, name, cs)
  }

  lemma {:induction false} FindKeyExactly(kids: seq<Shape>, i: nat, name: string, cs: bool)
    requires i < |kids|
    ensures FindKey(kids, name, cs) == i <==> IsFound(kids, i, name, cs)
  {
    hide KeyOf, KeysAgree;
    KeysAgreeExactly(kids[0].name, name, cs);
    if i > 0 {
      var rest := kids[1..];
      FindKeyExactly(rest, i - 1, name, cs);
      assert forall k | 0 < k < |kids| :: kids[k] == rest[k - 1];
      if IsFound(rest, i - 1, name, cs) && (if kids[0].key == null then !cs else !KeysAgree(kids[0].name, name, cs)) {
        assert IsFound(kids, i, name, cs);
      }
      if IsFound(kids, i, name, cs) {
        assert forall k | 0 <= k < i - 1 :: rest[k] == kids[k + 1];
        assert IsFound(rest, i - 1, name, cs);
      }
    }
  }

  // Nothing is found exactly when there is no such child.
  lemma NothingFoundExactly(kids: seq<Shape>, name: string, cs: bool)
    ensures FindKey(kids, name, cs) == -1 <==> forall i | 0 <= i < |kids| :: !IsFound(kids, i, name, cs)
  {
    hide FindKey, IsFound;
    forall i | 0 <= i < |kids|
      ensures FindKey(kids, name, cs) == i <==> IsFound(kids, i, name, cs)
    {
      FindKeyExactly(kids, i, name, cs);
    }
    var found := FindKey(kids, name, cs);
    assert found >= 0 ==> IsFound(kids, found, name, cs);
  }

  ghost function Advanced(i: nat, found: int): int {
    if found < 0 then -1 else i + found
  }

  // One test of the loop condition of get_object_item.
  method KeyDiffers(name: array<char>, current: Node, cs: bool, ghost sh: Shape, ghost text: string)
    returns (differs: bool)
    requires Labelled(sh) && sh.node == current && Spells(name, text)
    ensures differs <==> if sh.key == null then !cs else KeyOf(sh.name, cs) != KeyOf(text, cs)
  {
    if cs {
      differs := false;
      if current.key != null {
        var r := Strcmp(name, current.key, text, sh.name);
        differs := r != 0;
      }
    } else {
      var r := CaseInsensitiveStrcmp(name, current.key, text, sh.name);
      differs := r != 0;
    }
  }

  // get_object_item
  method GetObjectItem(owner: Node?, name: array?<char>, cs: bool, ghost sh: Shape, ghost text: string)
    returns (found: Node?)
    requires owner != null ==> Wired(sh) && sh.node == owner
    requires name != null ==> Spells(name, text)
    ensures found == if owner == null || name == null then null else NodeAt(sh.kids, FindKey(sh.kids, text, cs))
    ensures found != null ==> exists i | 0 <= i < |sh.kids| :: IsFound(sh.kids, i, text, cs) && found == sh.kids[i].node
    ensures found == null ==>
              owner == null || name == null || forall i | 0 <= i < |sh.kids| :: !IsFound(sh.kids, i, text, cs)
  {
    hide Wired, WiredList, Labelled, KeyOf, FindKey, Blocks, Spells, IsFound;
    if owner == null || name == null {
      return null;
    }
    ghost var kids := sh.kids;
    NothingFoundExactly(kids, text, cs);
    if FindKey(kids, text, cs) >= 0 {
      FindKeyExactly(kids, FindKey(kids, text, cs), text, cs);
    }
    ChildrenOf(sh);
    var current := owner.child;
    ghost var i := 0;
    assert kids[0..] == kids;
    while current != null
      invariant i <= |kids| && current == NodeAt(kids, i) && Wired(sh) && Spells(name, text)
      invariant FindKey(kids, text, cs) == Advanced(i, FindKey(kids[i..], text, cs))
      decreases |kids| - i
    {
      ChildAt(sh, i);
      FindStep(kids, i, text, cs);
      BlocksAllocated(sh);
      var differs := KeyDiffers(name, current, cs, kids[i], text);
      ChildAt(sh, i);
      if !differs {
        return if current.key == null then null else current;
      }
      current := current.next;
      i := i + 1;
    }
    FindNothing(text, cs);
    assert kids[i..] == [];
    found := null;
  }

  lemma FindNothing(name: string, cs: bool)
    ensures FindKey([], name, cs) == -1
  {
  }

  lemma ChildrenOf(sh: Shape)
    requires Wired(sh)
    ensures sh.node.child == First(sh.kids) && First(sh.kids) == NodeAt(sh.kids, 0) && Labelled(sh)
  {
    hide WiredList, Labelled;
  }

  lemma ChildAt(sh: Shape, i: nat)
    requires Wired(sh) && i < |sh.kids|
    ensures Wired(sh.kids[i]) && Labelled(sh.kids[i]) && sh.kids[i].node.next == NodeAt(sh.kids, i + 1)
    ensures sh.kids[i].node.key == sh.kids[i].key && Blocks(sh.kids[i]) <= Blocks(sh)
    ensures sh.kids[i].key != null ==> Spells(sh.kids[i].key, sh.kids[i].name) && sh.kids[i].key in Blocks(sh)
  {
    hide Spells, Blocks;
    BlocksParts(sh);
    BlocksParts(sh.kids[i]);
    WiredParts(sh.kids[i]);
  }

  // ---- Comparison ----

  // Every member of an object has a key.
  ghost predicate Keyed(sh: Shape)
    decreases sh
  {
    forall i | 0 <= i < |sh.kids| :: Keyed(sh.kids[i]) && (sh.data.DObject? ==> sh.kids[i].key != null)
  }

  // Trees on which no two pointers can coincide.
  ghost predicate Distinguished(sa: Shape, sb: Shape) {
    Keyed(sa) && Keyed(sb) && Blocks(sa) !! Blocks(sb)
  }

  ghost function Height(sh: Shape): nat
    decreases sh, 1
  {
    1 + HeightOf(sh.kids)
  }

  ghost function HeightOf(kids: seq<Shape>): nat
    decreases kids, 0
  {
    if kids == [] then 0 else Max(Height(kids[0]), HeightOf(kids[1..]))
  }

  lemma {:induction false} KidIsLower(kids: seq<Shape>, i: nat)
    requires i < |kids|
    ensures Height(kids[i]) <= HeightOf(kids)
  {
    if i > 0 {
      KidIsLower(kids[1..], i - 1);
    }
  }

  // What cJSON_Compare decides, shared nodes and members without a key included.
  ghost predicate Alike(a: Shape, b: Shape, cs: bool)
    decreases Height(a) + Height(b), 0
  {
    || a.node == b.node
    || match a.data
       case DNull => b.data.DNull?
       case DFalse => b.data.DFalse?
       case DTrue => b.data.DTrue?
       case DNumber(num) => b.data.DNumber? && CompareDouble(num, b.data.num)
       case DString(text) => b.data.DString? && text == b.data.text
       case DArray => b.data.DArray? && AlikeItems(a.kids, b.kids, cs)
       case DObject => b.data.DObject? && AlikeMembers(a.kids, b.kids, cs) && AlikeMembers(b.kids, a.kids, cs)
       case DInvalid => false
  }

  ghost predicate AlikeItems(x: seq<Shape>, y: seq<Shape>, cs: bool)
    decreases HeightOf(x) + HeightOf(y), 1
  {
    |x| == |y| && forall i | 0 <= i < |x| :: (KidIsLower(x, i); KidIsLower(y, i); Alike(x[i], y[i], cs))
  }

  ghost predicate AlikeMembers(x: seq<Shape>, y: seq<Shape>, cs: bool)
    decreases HeightOf(x) + HeightOf(y), 2
  {
    forall i | 0 <= i < |x| :: AlikeMember(x, i, y, cs)
  }

  ghost predicate AlikeMember(x: seq<Shape>, i: nat, y: seq<Shape>, cs: bool)
    requires i < |x|
    decreases HeightOf(x) + HeightOf(y), 1
  {
    var j := FindKey(y, x[i].name, cs);
    x[i].key != null && j >= 0 && (KidIsLower(x, i); KidIsLower(y, j); Alike(x[i], y[j], cs))
  }

  // One node is like itself, and no object with a member that has no key is like another node.
  lemma SharedOrKeyless(a: Shape, b: Shape, i: nat, cs: bool)
    ensures a.node == b.node ==> Alike(a, b, cs)
    ensures a.node != b.node && a.data.DObject? && i < |a.kids| && a.kids[i].key == null ==>
              !Alike(a, b, cs) && !Alike(b, a, cs)
  {
    hide FindKey;
    if a.data.DObject? && i < |a.kids| && a.kids[i].key == null {
      assert !AlikeMember(a.kids, i, b.kids, cs);
    }
  }

  // On separate trees whose members have keys it decides the comparison of the values.
  lemma {:induction false} AlikeIsSame(a: Shape, b: Shape, cs: bool)
    requires Valued(a) && Valued(b) && Distinguished(a, b)
    ensures Alike(a, b, cs) <==> Same(ValueOf(a), ValueOf(b), cs)
    decreases Height(a) + Height(b), 0
  {
    hide Keyed, Blocks, Same, SameItems, Covers, CompareDouble, AlikeItems, AlikeMembers;
    RootsDistinct(a, b);
    SameLeaves(ValueOf(a), ValueOf(b), cs);
    if a.data.DArray? && b.data.DArray? {
      AlikeItemsAreSame(a, b, cs);
    }
    if a.data.DObject? && b.data.DObject? {
      AlikeMembersAreCovered(a, b, cs);
      DistinguishedBothWays(a, b);
      AlikeMembersAreCovered(b, a, cs);
    }
  }

  lemma DistinguishedBothWays(a: Shape, b: Shape)
    requires Distinguished(a, b)
    ensures Distinguished(b, a)
  {
    hide Keyed, Blocks;
  }

  lemma {:induction false} AlikeItemsAreSame(a: Shape, b: Shape, cs: bool)
    requires ValuedAll(a.kids) && ValuedAll(b.kids) && Distinguished(a, b)
    ensures AlikeItems(a.kids, b.kids, cs) <==> SameItems(ItemsOf(a.kids), ItemsOf(b.kids), cs)
    decreases HeightOf(a.kids) + HeightOf(b.kids), 1
  {
    hide Keyed, Blocks, Same, Alike, ValueOf, Distinguished;
    var x, y := a.kids, b.kids;
    if |x| == |y| {
      forall i | 0 <= i < |x|
        ensures Alike(x[i], y[i], cs) <==> Same(ItemsOf(x)[i], ItemsOf(y)[i], cs)
      {
        KidIsLower(x, i);
        KidIsLower(y, i);
        KidsDistinguished(a, i, b, i);
        AlikeIsSame(x[i], y[i], cs);
      }
    }
  }

  lemma {:induction false} AlikeMembersAreCovered(a: Shape, b: Shape, cs: bool)
    requires ValuedAll(a.kids) && ValuedAll(b.kids) && Distinguished(a, b) && a.data.DObject? && b.data.DObject?
    ensures AlikeMembers(a.kids, b.kids, cs) <==> Covers(MembersOf(a.kids), MembersOf(b.kids), cs)
    decreases HeightOf(a.kids) + HeightOf(b.kids), 1
  {
    hide Keyed, Blocks, Same, Alike, ValueOf, Distinguished, Covered, FindKey;
    var x, y := a.kids, b.kids;
    KeysThere(a, b);
    forall i | 0 <= i < |x|
      ensures AlikeMember(x, i, y, cs) <==> Covered(MembersOf(x), i, MembersOf(y), cs)
    {
      var j := FindKey(y, x[i].name, cs);
      FindIsLookup(y, x[i].name, cs);
      CoveredAt(x, i, y, cs);
      if j >= 0 {
        KidIsLower(x, i);
        KidIsLower(y, j);
        KidsDistinguished(a, i, b, j);
        AlikeIsSame(x[i], y[j], cs);
      }
    }
  }

  // cJSON_Compare
  method Compare(a: Node?, b: Node?, cs: bool, ghost sa: Shape, ghost sb: Shape) returns (same: bool)
    requires a != null ==> Wired(sa) && Valued(sa) && sa.node == a
    requires b != null ==> Wired(sb) && Valued(sb) && sb.node == b
    ensures same <==> a != null && b != null && Alike(sa, sb, cs)
    ensures a != null && b != null && Distinguished(sa, sb) ==> (same <==> Same(ValueOf(sa), ValueOf(sb), cs))
    decreases if a != null && b != null then Height(sa) + Height(sb) else 0, 1
  {
    hide Wired, WiredList, Valued, ValueOf, Blocks, Same, Keyed, AlikeItems, AlikeMembers, Distinguished, CompareDouble;
    if a == null || b == null {
      return false;
    }
    LeafValue(sa);
    LeafValue(sb);
    if Distinguished(sa, sb) {
      AlikeIsSame(sa, sb, cs);
    }
    if a.kind != b.kind {
      return false;
    }
    if a == b {
      return true;
    }
    match a.kind
    case KFalse => same := true;
    case KTrue => same := true;
    case KNull => same := true;
    case KNumber =>
      same := CompareDouble(a.valuedouble, b.valuedouble);
    case KString =>
      var r := Strcmp(a.valuestring, b.valuestring, sa.data.text, sb.data.text);
      same := r == 0;
    case KArray =>
      same := CompareItems(a, b, cs, sa, sb);
    case KObject =>
      BlocksAllocated(sa);
      BlocksAllocated(sb);
      same := CompareMembers(a, b, cs, sa, sb);
      if same {
        same := CompareMembers(b, a, cs, sb, sa);
      }
    case KInvalid => same := false;
  }

  // The kind of a node and what it holds.
  lemma LeafValue(sh: Shape)
    requires Wired(sh) && Valued(sh)
    ensures match sh.data
            case DNull => sh.node.kind == KNull && ValueOf(sh) == Null
            case DFalse => sh.node.kind == KFalse && ValueOf(sh) == False
            case DTrue => sh.node.kind == KTrue && ValueOf(sh) == True
            case DNumber(num) => sh.node.kind == KNumber && sh.node.valuedouble == num && ValueOf(sh) == Number(num)
            case DString(text) =>
              && sh.node.kind == KString && sh.node.valuestring != null && Spells(sh.node.valuestring, text)
              && ValueOf(sh) == String(text)
            case DArray => sh.node.kind == KArray && ValuedAll(sh.kids) && ValueOf(sh) == Array(ItemsOf(sh.kids))
            case DObject => sh.node.kind == KObject && ValuedAll(sh.kids) && ValueOf(sh) == Object(MembersOf(sh.kids))
            case DInvalid => false
  {
    hide WiredList, Spells;
  }

  lemma SameLeaves(a: Json, b: Json, cs: bool)
    ensures Same(a, b, cs) <==>
            match a
            case Null => b.Null?
            case False => b.False?
            case True => b.True?
            case Number(num) => b.Number? && CompareDouble(num, b.num)
            case String(text) => b.String? && text == b.text
            case Array(items) => b.Array? && SameItems(items, b.items, cs)
            case Object(members) => b.Object? && Covers(members, b.members, cs) && Covers(b.members, members, cs)
  {
    hide SameItems, Covers, CompareDouble;
  }

  lemma RootsDistinct(sa: Shape, sb: Shape)
    requires Distinguished(sa, sb)
    ensures sa.node != sb.node
  {
    hide Keyed;
    assert sa.node in Blocks(sa) && sb.node in Blocks(sb);
  }

  lemma KidsDistinguished(sa: Shape, i: nat, sb: Shape, j: nat)
    requires Distinguished(sa, sb) && i < |sa.kids| && j < |sb.kids|
    ensures Distinguished(sa.kids[i], sb.kids[j])
  {
    hide Blocks;
    BlocksParts(sa);
    BlocksParts(sb);
    assert forall o | o in Blocks(sa.kids[i]) :: o in BlocksOf(sa.kids);
    assert forall o | o in Blocks(sb.kids[j]) :: o in BlocksOf(sb.kids);
  }

  // The loop over two arrays in step.
  method CompareItems(a: Node, b: Node, cs: bool, ghost sa: Shape, ghost sb: Shape) returns (same: bool)
    requires Wired(sa) && ValuedAll(sa.kids) && sa.node == a
    requires Wired(sb) && ValuedAll(sb.kids) && sb.node == b
    ensures same <==> AlikeItems(sa.kids, sb.kids, cs)
    decreases Height(sa) + Height(sb), 0
  {
    hide Wired, WiredList, Valued, ValueOf, Blocks, Same, Keyed, Distinguished, Alike;
    ghost var x, y := sa.kids, sb.kids;
    ChildrenOf(sa);
    ChildrenOf(sb);
    var aElement, bElement := a.child, b.child;
    ghost var i := 0;
    while aElement != null && bElement != null
      invariant i <= |x| && i <= |y| && aElement == NodeAt(x, i) && bElement == NodeAt(y, i) && Wired(sa) && Wired(sb)
      invariant forall k | 0 <= k < i :: Alike(x[k], y[k], cs)
      decreases |x| - i
    {
      ChildAt(sa, i);
      ChildAt(sb, i);
      KidIsLower(x, i);
      KidIsLower(y, i);
      BlocksAllocated(sa);
      BlocksAllocated(sb);
      var equal := Compare(aElement, bElement, cs, x[i], y[i]);
      if !equal {
        return false;
      }
      ChildAt(sa, i);
      ChildAt(sb, i);
      aElement := aElement.next;
      bElement := bElement.next;
      i := i + 1;
    }
    same := aElement == bElement;
  }

  lemma {:induction false} FindIsLookup(kids: seq<Shape>, name: string, cs: bool)
    requires ValuedAll(kids) && forall i | 0 <= i < |kids| :: kids[i].key != null
    ensures FindKey(kids, name, cs) == Lookup(MembersOf(kids), name, cs)
  {
    hide KeyOf, ValueOf;
    if kids != [] {
      FindIsLookup(kids[1..], name, cs);
      assert MembersOf(kids)[1..] == MembersOf(kids[1..]);
    }
  }

  // One of the two loops over the members of objects.
  method CompareMembers(a: Node, b: Node, cs: bool, ghost sa: Shape, ghost sb: Shape) returns (covered: bool)
    requires Wired(sa) && ValuedAll(sa.kids) && sa.node == a
    requires Wired(sb) && ValuedAll(sb.kids) && sb.node == b
    ensures covered <==> AlikeMembers(sa.kids, sb.kids, cs)
    decreases Height(sa) + Height(sb), 0
  {
    hide Wired, WiredList, Valued, ValueOf, Blocks, Same, Keyed, Distinguished, FindKey, Alike;
    ghost var x, y := sa.kids, sb.kids;
    ChildrenOf(sa);
    var element := a.child;
    ghost var i := 0;
    while element != null
      invariant i <= |x| && element == NodeAt(x, i) && Wired(sa) && Wired(sb)
      invariant forall k | 0 <= k < i :: AlikeMember(x, k, y, cs)
      decreases |x| - i
    {
      ChildAt(sa, i);
      KidIsLower(x, i);
      BlocksAllocated(sa);
      BlocksAllocated(sb);
      var like := GetObjectItem(b, element.key, cs, sb, x[i].name);
      if like == null {
        assert !AlikeMember(x, i, y, cs);
        return false;
      }
      ghost var j := FindKey(y, x[i].name, cs);
      ChildAt(sb, j);
      KidIsLower(y, j);
      var equal := Compare(element, like, cs, x[i], y[j]);
      if !equal {
        assert !AlikeMember(x, i, y, cs);
        return false;
      }
      ChildAt(sa, i);
      element := element.next;
      i := i + 1;
    }
    covered := true;
  }

  lemma KeysThere(sa: Shape, sb: Shape)
    requires Distinguished(sa, sb)
    ensures sa.data.DObject? ==> forall i | 0 <= i < |sa.kids| :: sa.kids[i].key != null
    ensures sb.data.DObject? ==> forall i | 0 <= i < |sb.kids| :: sb.kids[i].key != null
  {
    hide Blocks;
  }

  lemma CoveredAt(x: seq<Shape>, i: nat, y: seq<Shape>, cs: bool)
    requires ValuedAll(x) && ValuedAll(y) && i < |x|
    ensures var j := Lookup(MembersOf(y), x[i].name, cs);
            Covered(MembersOf(x), i, MembersOf(y), cs) <==> j >= 0 && Same(ValueOf(x[i]), ValueOf(y[j]), cs)
  {
    hide Same, KeyOf, ValueOf;
    assert MembersOf(x)[i] == Member(x[i].name, ValueOf(x[i]));
  }
}
