/**
 The heap of cJSON: nodes, the strings they own, and the allocator. A ghost `Shape` is the
 skeleton of a tree; `Wired` says that the heap realises it with the sibling-list invariant,
 `Owned` only that `cJSON_Delete` can walk it.
 */
module Nodes {
  import opened CText
  import opened Numbers
  import opened JsonValue

  datatype Kind = KInvalid | KFalse | KTrue | KNull | KNumber | KString | KArray | KObject

  class Node {
    var next: Node?
    var prev: Node?
    var child: Node?
    var kind: Kind
    var valuestring: array?<char>
    var valueint: int
    var valuedouble: real
    var key: array?<char>

    // cJSON_New_Item: memset to zero.
    constructor ()
      ensures next == null && prev == null && child == null && kind == KInvalid
      ensures valuestring == null && valueint == 0 && valuedouble == 0.0 && key == null
    {
      next, prev, child, kind := null, null, null, KInvalid;
      valuestring, valueint, valuedouble, key := null, 0, 0.0, null;
    }
  }

  // malloc and free. Any allocation may fail; `failures` counts those that did.
  class Allocator {
    ghost var live: set<object>
    ghost var failures: nat

    constructor ()
      ensures live == {} && failures == 0
    {
      live, failures := {}, 0;
    }

    method NewItem() returns (n: Node?)
      modifies this
      ensures n == null ==> live == old(live) && failures > old(failures)
      ensures n != null ==> fresh(n) && live == old(live) + {n} && failures == old(failures)
      ensures n != null ==> n.next == null && n.prev == null && n.child == null && n.kind == KInvalid
      ensures n != null ==> n.valuestring == null && n.valueint == 0 && n.valuedouble == 0.0 && n.key == null
    {
      if * {
        n := null;
        failures := failures + 1;
      } else {
        n := new Node();
        live := live + {n};
      }
    }

    method NewString(size: nat) returns (a: array?<char>)
      modifies this
      ensures a == null ==> live == old(live) && failures > old(failures)
      ensures a != null ==> fresh(a) && a.Length == size && live == old(live) + {a} && failures == old(failures)
    {
      if * {
        a := null;
        failures := failures + 1;
      } else {
        a := new char[size];
        live := live + {a};
      }
    }

    // realloc: the old block stays live when it fails.
    method Resize(a: array<char>, size: nat) returns (b: array?<char>)
      requires a in live
      modifies this
      ensures b == null ==> live == old(live) && failures > old(failures)
      ensures b != null ==> fresh(b) && b.Length == size && live == old(live) - {a} + {b} && failures == old(failures)
      ensures b != null ==> forall i | 0 <= i < a.Length && i < size :: b[i] == a[i]
    {
      b := NewString(size);
      if b != null {
        forall i | 0 <= i < a.Length && i < size {
          b[i] := a[i];
        }
        Release(a);
      }
    }

    // Only a live block may be freed.
    method Release(block: object)
      requires block in live
      modifies this
      ensures live == old(live) - {block} && failures == old(failures)
    {
      live := live - {block};
    }
  }

  // The buffer holds the C string `s`.
  ghost predicate Spells(a: array<char>, s: string)
    reads a
  {
    && |s| < a.Length && a[|s|] == NUL
    && forall i | 0 <= i < |s| :: a[i] == s[i] && s[i] != NUL
  }

  lemma SpellsOnce(a: array<char>, s: string, t: string)
    requires Spells(a, s) && Spells(a, t)
    ensures s == t
  {
    assert forall i | 0 <= i < |s| && i < |t| :: s[i] == a[i] == t[i];
  }

  // A terminated buffer spells what stands before its first NUL.
  lemma SpellsPrefix(a: array<char>)
    requires NUL in a[..]
    ensures Spells(a, CString(a[..]))
  {
    var s := CString(a[..]);
    var whole := a[..];
    assert |s| == |whole| ==> s == whole;
    assert forall i | 0 <= i < |s| :: s[i] in s;
  }

  // ---- Shapes ----

  datatype Data = DInvalid | DNull | DFalse | DTrue | DNumber(num: real) | DString(text: string) | DArray | DObject

  datatype Shape = Shape(node: Node, key: array?<char>, name: string, text: array?<char>, data: Data, kids: seq<Shape>)

  ghost function Optional(a: array?<char>): set<object> {
    if a == null then {} else {a}
  }

  // The memory blocks of a tree and of a list of trees.
  ghost function Blocks(sh: Shape): (blocks: set<object>)
    ensures sh.node in blocks
    decreases sh
  {
    {sh.node} + Optional(sh.key) + Optional(sh.text) + BlocksOf(sh.kids)
  }

  ghost function BlocksOf(kids: seq<Shape>): (blocks: set<object>)
    ensures Roots(kids) <= blocks
    decreases kids
  {
    assert forall i | 0 <= i < |kids| :: kids[i].node in Blocks(kids[i]);
    set i, o | 0 <= i < |kids| && o in Blocks(kids[i]) :: o
  }

  // No block is used twice.
  ghost predicate Separate(sh: Shape)
    decreases sh
  {
    && (sh.key != null ==> sh.key != sh.text)
    && ({sh.node} + Optional(sh.key) + Optional(sh.text)) !! BlocksOf(sh.kids)
    && SeparateAll(sh.kids)
  }

  ghost predicate SeparateAll(kids: seq<Shape>)
    decreases kids
  {
    && (forall i | 0 <= i < |kids| :: Separate(kids[i]))
    && (forall i, j | 0 <= i < j < |kids| :: Blocks(kids[i]) !! Blocks(kids[j]))
  }

  ghost function First(kids: seq<Shape>): Node? {
    if kids == [] then null else kids[0].node
  }

  ghost function NodeAt(kids: seq<Shape>, i: int): Node? {
    if 0 <= i < |kids| then kids[i].node else null
  }

  // ---- What Delete needs ----

  ghost predicate Owned(sh: Shape)
    reads Blocks(sh)
    decreases sh
  {
    && sh.node.key == sh.key && sh.node.valuestring == sh.text && sh.node.child == First(sh.kids)
    && OwnedList(sh.kids)
  }

  ghost predicate OwnedList(kids: seq<Shape>)
    reads BlocksOf(kids)
    decreases kids
  {
    && (forall i | 0 <= i < |kids| :: Owned(kids[i]))
    && NextLinks(kids)
  }

  ghost function Roots(kids: seq<Shape>): set<object> {
    set i | 0 <= i < |kids| :: kids[i].node
  }

  ghost predicate NextLinks(kids: seq<Shape>)
    reads Roots(kids)
  {
    forall i {:trigger kids[i].node.next} | 0 <= i < |kids| :: kids[i].node.next == NodeAt(kids, i + 1)
  }

  // ---- A well-formed tree ----

  ghost predicate Labelled(sh: Shape)
    reads sh.node`key, sh.node`valuestring, sh.node`kind, sh.node`valueint, sh.node`valuedouble
    reads Optional(sh.key), Optional(sh.text)
  {
    var n := sh.node;
    && n.key == sh.key && n.valuestring == sh.text
    && (if sh.key == null then sh.name == "" else Spells(sh.key, sh.name))
    && match sh.data
       case DInvalid => true
       case DNull => n.kind == KNull
       case DFalse => n.kind == KFalse
       case DTrue => n.kind == KTrue
       case DNumber(num) => n.kind == KNumber && n.valuedouble == num && n.valueint == Saturate(num)
       case DString(text) => n.kind == KString && sh.text != null && Spells(sh.text, text)
       case DArray => n.kind == KArray
       case DObject => n.kind == KObject
  }

  ghost predicate Wired(sh: Shape)
    reads Blocks(sh)
    decreases sh
  {
    Labelled(sh) && sh.node.child == First(sh.kids) && WiredList(sh.kids)
  }

  // Siblings: `next` and `prev` are inverse, the last `next` is NULL, and the first `prev`
  // is the last node.
  ghost predicate WiredList(kids: seq<Shape>)
    reads BlocksOf(kids)
    decreases kids
  {
    && (forall i | 0 <= i < |kids| :: Wired(kids[i]))
    && NextLinks(kids) && PrevLinks(kids)
    && (kids != [] ==> kids[0].node.prev == kids[|kids| - 1].node)
  }

  ghost predicate PrevLinks(kids: seq<Shape>)
    reads Roots(kids)
  {
    forall i {:trigger kids[i].node.prev} | 0 < i < |kids| :: kids[i].node.prev == kids[i - 1].node
  }

  // A list under construction, followed by `tail`: the first `prev` is not set yet.
  ghost predicate Open(kids: seq<Shape>, tail: Node?)
    reads BlocksOf(kids)
  {
    && (forall i | 0 <= i < |kids| :: Wired(kids[i]))
    && LinkedTo(kids, tail) && PrevLinks(kids)
  }

  ghost predicate LinkedTo(kids: seq<Shape>, tail: Node?)
    reads Roots(kids)
  {
    forall i {:trigger kids[i].node.next} | 0 <= i < |kids| ::
      kids[i].node.next == if i == |kids| - 1 then tail else NodeAt(kids, i + 1)
  }

  ghost predicate Chain(kids: seq<Shape>)
    reads BlocksOf(kids)
  {
    Open(kids, null)
  }

  // A list is its front, open towards the last element, and that element.
  lemma ChainSnoc(kids: seq<Shape>, x: Shape)
    ensures Chain(kids + [x]) <==>
            Open(kids, x.node) && Wired(x) && x.node.next == null
            && (kids != [] ==> x.node.prev == kids[|kids| - 1].node)
  {
    hide Wired;
    var all := kids + [x];
    assert forall i | 0 <= i < |kids| :: all[i] == kids[i];
    assert all[|kids|] == x;
    if Chain(all) {
      forall i | 0 <= i < |kids|
        ensures Wired(kids[i]) && kids[i].node.next == (if i == |kids| - 1 then x.node else NodeAt(kids, i + 1))
      {
        assert Wired(all[i]) && all[i].node.next == NodeAt(all, i + 1);
      }
      forall i | 0 < i < |kids|
        ensures kids[i].node.prev == kids[i - 1].node
      {
        assert all[i].node.prev == all[i - 1].node;
      }
      assert kids != [] ==> all[|kids|].node.prev == all[|kids| - 1].node;
      assert Wired(all[|kids|]);
    }
    if Open(kids, x.node) && Wired(x) && x.node.next == null && (kids != [] ==> x.node.prev == kids[|kids| - 1].node) {
      forall i | 0 <= i < |all|
        ensures Wired(all[i]) && all[i].node.next == NodeAt(all, i + 1)
      {
        assert i < |kids| ==> Wired(kids[i]);
      }
      forall i | 0 < i < |all|
        ensures all[i].node.prev == all[i - 1].node
      {
        assert i < |kids| ==> kids[i].node.prev == kids[i - 1].node;
      }
    }
  }

  lemma {:induction false} WiredIsOwned(sh: Shape)
    requires Wired(sh)
    ensures Owned(sh)
    decreases sh
  {
    ChainIsOwned(sh.kids);
  }

  lemma {:induction false} ChainIsOwned(kids: seq<Shape>)
    requires Chain(kids)
    ensures OwnedList(kids)
    decreases kids
  {
    forall i | 0 <= i < |kids|
      ensures Owned(kids[i])
    {
      WiredIsOwned(kids[i]);
    }
  }

  // ---- Values ----

  ghost predicate Valued(sh: Shape)
    decreases sh
  {
    !sh.data.DInvalid? && ((sh.data.DArray? || sh.data.DObject?) ==> ValuedAll(sh.kids))
  }

  ghost predicate ValuedAll(kids: seq<Shape>)
    decreases kids
  {
    forall i | 0 <= i < |kids| :: Valued(kids[i])
  }

  // The value a tree denotes.
  ghost function ValueOf(sh: Shape): Json
    requires Valued(sh)
    decreases sh
  {
    match sh.data
    case DNull => Null
    case DFalse => False
    case DTrue => True
    case DNumber(num) => Number(num)
    case DString(text) => String(text)
    case DArray => Array(ItemsOf(sh.kids))
    case DObject => Object(MembersOf(sh.kids))
  }

  ghost function ItemsOf(kids: seq<Shape>): (items: seq<Json>)
    requires ValuedAll(kids)
    ensures |items| == |kids|
    decreases kids
  {
    seq(|kids|, i requires 0 <= i < |kids| => ValueOf(kids[i]))
  }

  ghost function MembersOf(kids: seq<Shape>): (members: seq<Member>)
    requires ValuedAll(kids)
    ensures |members| == |kids|
    decreases kids
  {
    seq(|kids|, i requires 0 <= i < |kids| => Member(kids[i].name, ValueOf(kids[i])))
  }

  // ---- Lists of shapes ----

  lemma {:induction false} BlocksSplit(kids: seq<Shape>, k: nat)
    requires k < |kids|
    ensures BlocksOf(kids[..k + 1]) == BlocksOf(kids[..k]) + Blocks(kids[k])
  {
    hide Blocks;
    var a, b := kids[..k + 1], kids[..k];
    forall o
      ensures o in BlocksOf(a) <==> o in BlocksOf(b) + Blocks(kids[k])
    {
      if o in BlocksOf(a) {
        var i :| 0 <= i < |a| && o in Blocks(a[i]);
        assert i < k ==> b[i] == a[i];
      }
      if o in BlocksOf(b) {
        var i :| 0 <= i < |b| && o in Blocks(b[i]);
        assert a[i] == b[i];
      }
      if o in Blocks(kids[k]) {
        assert a[k] == kids[k];
      }
    }
  }

  lemma BlocksAppend(kids: seq<Shape>, x: Shape)
    ensures BlocksOf(kids + [x]) == BlocksOf(kids) + Blocks(x)
  {
    var all := kids + [x];
    BlocksSplit(all, |kids|);
    assert all[..|kids| + 1] == all && all[..|kids|] == kids;
  }

  lemma SeparateSnoc(kids: seq<Shape>, x: Shape)
    ensures SeparateAll(kids + [x]) <==> SeparateAll(kids) && Separate(x) && Blocks(x) !! BlocksOf(kids)
  {
    hide Blocks, Separate;
    var all := kids + [x];
    assert all[|kids|] == x && forall i | 0 <= i < |kids| :: all[i] == kids[i];
    if SeparateAll(all) {
      SeparatePrefix(kids, x);
    }
    if SeparateAll(kids) && Separate(x) && Blocks(x) !! BlocksOf(kids) {
      forall i, j | 0 <= i < j < |all|
        ensures Blocks(all[i]) !! Blocks(all[j])
      {
        assert Blocks(kids[i]) <= BlocksOf(kids);
      }
    }
  }

  lemma SeparatePrefix(kids: seq<Shape>, x: Shape)
    requires SeparateAll(kids + [x])
    ensures SeparateAll(kids) && Separate(x) && Blocks(x) !! BlocksOf(kids)
  {
    hide Blocks, Separate;
    var all := kids + [x];
    assert Separate(all[|kids|]);
    forall i | 0 <= i < |kids|
      ensures Separate(kids[i]) && Blocks(kids[i]) !! Blocks(x)
    {
      assert Separate(all[i]) && Blocks(all[i]) !! Blocks(all[|kids|]);
    }
    forall i, j | 0 <= i < j < |kids|
      ensures Blocks(kids[i]) !! Blocks(kids[j])
    {
      assert Blocks(all[i]) !! Blocks(all[j]);
    }
  }

  // `head->prev = current_item`: the list is complete.
  method CloseList(head: Node?, current: Node?, ghost kids: seq<Shape>)
    requires Chain(kids) && SeparateAll(kids) && head == First(kids) && current == NodeAt(kids, |kids| - 1)
    modifies if head == null then {} else {head}
    ensures WiredList(kids)
    ensures head != null ==> head.next == old(head.next)
  {
    if head != null {
      SetFirstPrev(head, current, kids);
    }
  }

  method SetFirstPrev(head: Node, last: Node?, ghost kids: seq<Shape>)
    requires Chain(kids) && SeparateAll(kids) && kids != [] && head == kids[0].node
    modifies head
    ensures Chain(kids) && head.prev == last && head.next == old(head.next)
    ensures last == kids[|kids| - 1].node ==> WiredList(kids)
  {
    hide Wired, Blocks, BlocksOf, Separate, SeparateAll, Spells, Labelled;
    ghost var first := kids[0];
    FirstApart(kids);
    WiredParts(first);
    head.prev := last;
    SameLabel(first);
    WiredParts(first);
    assert forall i | 0 < i < |kids| :: Wired(kids[i]);
  }

  lemma FirstApart(kids: seq<Shape>)
    requires SeparateAll(kids) && kids != []
    ensures kids[0].node !in BlocksOf(kids[0].kids)
    ensures forall i | 0 < i < |kids| :: kids[0].node !in Blocks(kids[i]) && kids[i].node != kids[0].node
  {
    ListApart(kids);
    RootApart(kids[0]);
  }

  // The node `x` of a new item goes behind `current`, the last item so far.
  method AttachItem(head: Node?, current: Node?, item: Node, ghost kids: seq<Shape>, ghost x: Shape)
    returns (newHead: Node)
    requires Chain(kids) && SeparateAll(kids) && Wired(x) && Separate(x)
    requires head == First(kids) && current == NodeAt(kids, |kids| - 1)
    requires x.node == item && item.next == null && Blocks(x) !! BlocksOf(kids)
    modifies if current == null then {} else {current, item}
    ensures Open(kids, item) && Wired(x) && item.next == null
    ensures kids != [] ==> item.prev == kids[|kids| - 1].node
    ensures newHead == First(kids + [x])
  {
    hide Wired, Separate, SeparateAll, Blocks, BlocksOf;
    if head == null {
      newHead := item;
    } else {
      newHead := head;
      Suffix(current, item, kids, x);
    }
  }

  // suffix_object, seen from the list.
  method Suffix(prev: Node, item: Node, ghost kids: seq<Shape>, ghost x: Shape)
    requires Chain(kids) && SeparateAll(kids) && Wired(x) && Separate(x)
    requires kids != [] && prev == kids[|kids| - 1].node
    requires x.node == item && Blocks(x) !! BlocksOf(kids)
    modifies prev, item
    ensures Open(kids, item) && Wired(x)
    ensures prev.prev == old(prev.prev) && item.next == old(item.next) && item.prev == prev && prev.next == item
  {
    hide Wired, WiredList, Blocks, BlocksOf, Separate, SeparateAll, Spells, Open, Labelled;
    ghost var last := kids[|kids| - 1];
    ghost var front := kids[..|kids| - 1];
    assert kids == front + [last];
    ChainSnoc(front, last);
    FrontApart(front, last, x);
    WiredParts(last);
    WiredParts(x);
    prev.next := item;
    item.prev := prev;
    SameLabel(last);
    SameLabel(x);
    WiredParts(last);
    WiredParts(x);
    OpenSnoc(front, last, item);
  }

  // Relinking a node among its siblings does not touch its label.
  twostate lemma SameLabel(sh: Shape)
    requires old(Labelled(sh))
    requires sh.node.key == old(sh.node.key) && sh.node.valuestring == old(sh.node.valuestring)
    requires sh.node.kind == old(sh.node.kind)
    requires sh.node.valueint == old(sh.node.valueint) && sh.node.valuedouble == old(sh.node.valuedouble)
    requires sh.key != null ==> unchanged(sh.key)
    requires sh.text != null ==> unchanged(sh.text)
    ensures Labelled(sh)
  {
  }

  lemma FrontApart(front: seq<Shape>, last: Shape, x: Shape)
    requires SeparateAll(front + [last]) && Separate(x) && Blocks(x) !! BlocksOf(front + [last])
    ensures last.node !in BlocksOf(front) && x.node !in BlocksOf(front) && x.node != last.node
    ensures last.node !in BlocksOf(last.kids) && last.node !in BlocksOf(x.kids)
    ensures x.node !in BlocksOf(last.kids) && x.node !in BlocksOf(x.kids)
  {
    hide Blocks, BlocksOf, Separate, SeparateAll;
    SeparateSnoc(front, last);
    BlocksAppend(front, last);
    RootApart(last);
    RootApart(x);
  }

  // The open form of ChainSnoc.
  lemma OpenSnoc(front: seq<Shape>, last: Shape, tail: Node?)
    requires Open(front, last.node) && Wired(last) && last.node.next == tail
    requires front != [] ==> last.node.prev == front[|front| - 1].node
    ensures Open(front + [last], tail)
  {
    hide Wired;
    var all := front + [last];
    forall i | 0 <= i < |all|
      ensures Wired(all[i]) && all[i].node.next == if i == |all| - 1 then tail else NodeAt(all, i + 1)
    {
      assert i < |front| ==> all[i] == front[i];
    }
    forall i | 0 < i < |all|
      ensures all[i].node.prev == all[i - 1].node
    {
      assert i < |front| ==> front[i].node.prev == front[i - 1].node;
    }
  }

  lemma ListApart(kids: seq<Shape>)
    requires SeparateAll(kids)
    ensures forall i | 0 <= i < |kids| ::
              Separate(kids[i]) && Blocks(kids[i]) <= BlocksOf(kids) && kids[i].node in Blocks(kids[i])
    ensures forall i, j | 0 <= i < |kids| && 0 <= j < |kids| && i != j :: Blocks(kids[i]) !! Blocks(kids[j])
    ensures forall i, j | 0 <= i < |kids| && 0 <= j < |kids| && i != j :: kids[i].node != kids[j].node
  {
  }

  lemma WiredParts(sh: Shape)
    ensures Wired(sh) <==> Labelled(sh) && sh.node.child == First(sh.kids) && WiredList(sh.kids)
  {
  }

  lemma RootApart(sh: Shape)
    requires Separate(sh)
    ensures sh.node !in BlocksOf(sh.kids) && sh.node in Blocks(sh) && BlocksOf(sh.kids) <= Blocks(sh)
    ensures Optional(sh.key) <= Blocks(sh) && Optional(sh.text) <= Blocks(sh)
  {
  }

  // cJSON_Delete: frees every block of the list exactly once and nothing else.
  method Delete(item: Node?, mem: Allocator, ghost trees: seq<Shape>)
    requires OwnedList(trees) && SeparateAll(trees) && item == First(trees)
    requires BlocksOf(trees) <= mem.live && mem !in BlocksOf(trees)
    modifies mem
    ensures mem.live == old(mem.live) - BlocksOf(trees) && mem.failures == old(mem.failures)
    decreases trees
  {
    hide Blocks, Separate, Owned;
    var it := item;
    ghost var i := 0;
    assert BlocksOf(trees[..0]) == {};
    while it != null
      invariant i <= |trees| && it == NodeAt(trees, i)
      invariant mem.live == old(mem.live) - BlocksOf(trees[..i]) && mem.failures == old(mem.failures)
      decreases |trees| - i
    {
      BlocksSplit(trees, i);
      DisjointFromFront(trees, i);
      assert Owned(trees[i]);
      var next := it.next;
      DeleteOne(it, mem, trees[i]);
      it := next;
      i := i + 1;
    }
    assert trees[..i] == trees;
  }

  lemma DisjointFromFront(trees: seq<Shape>, i: nat)
    requires i < |trees| && SeparateAll(trees)
    ensures Blocks(trees[i]) !! BlocksOf(trees[..i])
    ensures Blocks(trees[i]) <= BlocksOf(trees)
  {
  }

  // The body of the loop of cJSON_Delete.
  method DeleteOne(it: Node, mem: Allocator, ghost sh: Shape)
    requires Owned(sh) && Separate(sh) && it == sh.node
    requires Blocks(sh) <= mem.live && mem !in Blocks(sh)
    modifies mem
    ensures mem.live == old(mem.live) - Blocks(sh) && mem.failures == old(mem.failures)
    decreases sh
  {
    if it.child != null {
      Delete(it.child, mem, sh.kids);
    }
    if it.valuestring != null {
      mem.Release(it.valuestring);
    }
    if it.key != null {
      mem.Release(it.key);
    }
    mem.Release(it);
  }

  // A node just allocated, possibly with a key: `own` describes it.
  ghost predicate Unfilled(item: Node, own: Shape)
    reads Blocks(own)
  {
    && own.node == item && own.data == DInvalid && own.text == null && own.kids == []
    && Wired(own) && Separate(own)
  }

  lemma FreshItem(item: Node, own: Shape)
    requires own == Shape(item, null, "", null, DInvalid, [])
    requires item.key == null && item.valuestring == null && item.child == null
    ensures Unfilled(item, own) && Blocks(own) == {item}
  {
  }

  // Store a number with its saturated integer value.
  method SetNumber(item: Node, number: real, ghost own: Shape) returns (ghost sh: Shape)
    requires Unfilled(item, own)
    modifies item
    ensures sh == own.(data := DNumber(number)) && Wired(sh) && Blocks(sh) == Blocks(own)
    ensures item.next == old(item.next) && item.prev == old(item.prev)
  {
    item.valuedouble := number;
    if number >= INT_MAX as real {
      item.valueint := INT_MAX;
    } else if number <= INT_MIN as real {
      item.valueint := INT_MIN;
    } else {
      item.valueint := Truncate(number);
    }
    item.kind := KNumber;
    sh := own.(data := DNumber(number));
  }

  // The conversion (int)number.
  function Truncate(d: real): int {
    if d >= 0.0 then d.Floor else -((-d).Floor)
  }

  // cJSON_Delete on a tree without siblings.
  method DeleteTree(item: Node, mem: Allocator, ghost sh: Shape)
    requires Wired(sh) && Separate(sh) && sh.node == item && item.next == null
    requires Blocks(sh) <= mem.live && mem !in Blocks(sh)
    modifies mem
    ensures mem.live == old(mem.live) - Blocks(sh) && mem.failures == old(mem.failures)
  {
    hide Wired, Separate, Blocks, Owned;
    WiredIsOwned(sh);
    OneTree(sh);
    Delete(item, mem, [sh]);
  }

  lemma OneTree(sh: Shape)
    requires Owned(sh) && Separate(sh) && sh.node.next == null
    ensures OwnedList([sh]) && SeparateAll([sh]) && BlocksOf([sh]) == Blocks(sh)
  {
    hide Owned, Separate, Blocks;
    BlocksAppend([], sh);
    assert [] + [sh] == [sh];
    assert BlocksOf([]) == {};
  }
}
