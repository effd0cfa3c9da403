/**
 In-place operations on sibling lists: append, insert, detach and replace rewire a handful of
 pointers and act on the sequence of children as the plain sequence operations.
 */
module Lists {
  import opened JsonValue
  import opened Nodes

  ghost predicate Tree(sh: Shape)
    reads Blocks(sh)
  {
    Wired(sh) && Separate(sh)
  }

  // The blocks of the root alone.
  ghost function Own(sh: Shape): set<object> {
    {sh.node} + Optional(sh.key) + Optional(sh.text)
  }

  ghost predicate AllWired(kids: seq<Shape>)
    reads BlocksOf(kids)
  {
    forall i | 0 <= i < |kids| :: Wired(kids[i])
  }

  // Next, previous and the back link of the first node.
  ghost predicate Linked(kids: seq<Shape>)
    reads Roots(kids)
  {
    NextLinks(kids) && PrevLinks(kids) && (kids != [] ==> kids[0].node.prev == kids[|kids| - 1].node)
  }

  lemma TreeParts(sh: Shape)
    requires Tree(sh)
    ensures Labelled(sh) && sh.node.child == First(sh.kids)
    ensures AllWired(sh.kids) && Linked(sh.kids) && SeparateAll(sh.kids) && Detached(sh, sh.kids)
    ensures Blocks(sh) == Own(sh) + BlocksOf(sh.kids)
  {
    hide Wired, Blocks, BlocksOf, SeparateAll, Labelled;
    WiredParts(sh);
    BlocksParts(sh);
  }

  lemma BlocksParts(sh: Shape)
    ensures Blocks(sh) == Own(sh) + BlocksOf(sh.kids)
  {
  }

  ghost predicate Detached(sh: Shape, kids: seq<Shape>) {
    (sh.key != null ==> sh.key != sh.text) && Own(sh) !! BlocksOf(kids)
  }

  lemma TreeWith(sh: Shape, kids: seq<Shape>)
    requires Labelled(sh) && sh.node.child == First(kids) && AllWired(kids) && Linked(kids)
    requires SeparateAll(kids) && Detached(sh, kids)
    ensures Tree(sh.(kids := kids)) && Blocks(sh.(kids := kids)) == Own(sh) + BlocksOf(kids)
  {
    hide Blocks, BlocksOf, SeparateAll;
    WiredParts(sh.(kids := kids));
    BlocksParts(sh.(kids := kids));
  }

  lemma TreeIsLinked(sh: Shape)
    requires Tree(sh)
    ensures Linked(sh.kids)
  {
    TreeParts(sh);
  }

  // ---- Relinking siblings keeps every subtree ----

  ghost function Members(kids: seq<Shape>): set<Node> {
    set i | 0 <= i < |kids| :: kids[i].node
  }

  // Everything below the roots.
  ghost function Inside(kids: seq<Shape>): set<object> {
    set i, o | 0 <= i < |kids| && o in Optional(kids[i].key) + Optional(kids[i].text) + BlocksOf(kids[i].kids) :: o
  }

  // All that the subtrees say apart from the links between their roots.
  ghost predicate Intact(kids: seq<Shape>)
    reads Members(kids)`child, Members(kids)`kind, Members(kids)`key, Members(kids)`valuestring
    reads Members(kids)`valueint, Members(kids)`valuedouble, Inside(kids)
  {
    forall i | 0 <= i < |kids| :: IntactAt(kids, i)
  }

  ghost predicate IntactAt(kids: seq<Shape>, i: nat)
    requires i < |kids|
    reads Members(kids)`child, Members(kids)`kind, Members(kids)`key, Members(kids)`valuestring
    reads Members(kids)`valueint, Members(kids)`valuedouble, Inside(kids)
  {
    assert forall o | o in Optional(kids[i].key) + Optional(kids[i].text) + BlocksOf(kids[i].kids) :: o in Inside(kids);
    Labelled(kids[i]) && kids[i].node.child == First(kids[i].kids) && WiredList(kids[i].kids)
  }

  lemma IntactMeans(kids: seq<Shape>)
    ensures Intact(kids) <==> AllWired(kids)
  {
    hide Wired, Labelled, WiredList, Blocks, BlocksOf;
    forall i | 0 <= i < |kids|
      ensures IntactAt(kids, i) <==> Wired(kids[i])
    {
      WiredParts(kids[i]);
    }
  }

  lemma InsideApart(kids: seq<Shape>)
    requires SeparateAll(kids)
    ensures forall i | 0 <= i < |kids| :: kids[i].node !in Inside(kids)
    ensures Inside(kids) <= BlocksOf(kids)
  {
    hide Blocks, BlocksOf, Separate, SeparateAll;
    ListApart(kids);
    forall i | 0 <= i < |kids|
      ensures Optional(kids[i].key) + Optional(kids[i].text) + BlocksOf(kids[i].kids) <= Blocks(kids[i])
      ensures kids[i].node !in Optional(kids[i].key) + Optional(kids[i].text) + BlocksOf(kids[i].kids)
    {
      RootApart(kids[i]);
    }
  }

  // Every block of a tree is allocated, so allocating more leaves the tree alone.
  lemma {:induction false} BlocksAllocated(sh: Shape)
    ensures forall o | o in Blocks(sh) :: allocated(o)
    decreases sh
  {
    forall o | o in BlocksOf(sh.kids)
      ensures allocated(o)
    {
      var i :| 0 <= i < |sh.kids| && o in Blocks(sh.kids[i]);
      BlocksAllocated(sh.kids[i]);
    }
  }

  lemma AllBlocksAllocated(kids: seq<Shape>)
    ensures forall o | o in BlocksOf(kids) :: allocated(o)
  {
    forall o | o in BlocksOf(kids)
      ensures allocated(o)
    {
      var i :| 0 <= i < |kids| && o in Blocks(kids[i]);
      BlocksAllocated(kids[i]);
    }
  }

  lemma RootsOutside(kids: seq<Shape>, x: Shape)
    requires SeparateAll(kids + [x])
    ensures Members(kids) !! Inside(kids + [x]) && x.node !in Inside(kids + [x])
  {
    hide Blocks, BlocksOf, SeparateAll, Inside;
    var all := kids + [x];
    InsideApart(all);
    assert all[|kids|] == x && forall i | 0 <= i < |kids| :: kids[i].node == all[i].node;
  }

  // ---- Sequences of separate trees ----

  lemma SeparateConcat(a: seq<Shape>, b: seq<Shape>)
    ensures SeparateAll(a + b) <==> SeparateAll(a) && SeparateAll(b) && BlocksOf(a) !! BlocksOf(b)
    ensures BlocksOf(a + b) == BlocksOf(a) + BlocksOf(b)
    decreases |b|
  {
    hide Blocks, BlocksOf, Separate, SeparateAll;
    if b == [] {
      assert a + b == a;
      NothingSeparate();
    } else {
      var front, last := b[..|b| - 1], b[|b| - 1];
      assert b == front + [last] && a + b == (a + front) + [last];
      SeparateConcat(a, front);
      SeparateSnoc(a + front, last);
      SeparateSnoc(front, last);
      BlocksAppend(a + front, last);
      BlocksAppend(front, last);
    }
  }

  lemma NothingSeparate()
    ensures SeparateAll([]) && BlocksOf([]) == {}
  {
  }

  lemma SeparateOne(x: Shape)
    ensures SeparateAll([x]) <==> Separate(x)
    ensures BlocksOf([x]) == Blocks(x)
  {
    hide Separate;
    assert [] + [x] == [x];
    SeparateSnoc([], x);
    BlocksAppend([], x);
    NothingSeparate();
  }

  lemma SeparateInsert(kids: seq<Shape>, w: nat, x: Shape)
    requires w <= |kids| && SeparateAll(kids) && Separate(x) && Blocks(x) !! BlocksOf(kids)
    ensures SeparateAll(kids[..w] + [x] + kids[w..])
    ensures BlocksOf(kids[..w] + [x] + kids[w..]) == BlocksOf(kids) + Blocks(x)
  {
    hide Blocks, BlocksOf, Separate, SeparateAll;
    var a, b := kids[..w], kids[w..];
    assert kids == a + b;
    SeparateConcat(a, b);
    SeparateOne(x);
    SeparateConcat(a, [x]);
    SeparateConcat(a + [x], b);
  }

  lemma SeparateRemove(kids: seq<Shape>, w: nat)
    requires w < |kids| && SeparateAll(kids)
    ensures SeparateAll(kids[..w] + kids[w + 1..]) && Separate(kids[w])
    ensures BlocksOf(kids[..w] + kids[w + 1..]) == BlocksOf(kids) - Blocks(kids[w])
    ensures Blocks(kids[w]) <= BlocksOf(kids)
  {
    hide Blocks, BlocksOf, Separate, SeparateAll;
    var a, b, x := kids[..w], kids[w + 1..], kids[w];
    assert kids == (a + [x]) + b;
    SeparateConcat(a + [x], b);
    SeparateConcat(a, [x]);
    SeparateOne(x);
    SeparateConcat(a, b);
  }

  // ---- Append ----

  ghost function Block(n: Node?): set<object> {
    if n == null then {} else {n}
  }

  // add_item_to_array. The list stays well-formed exactly when the new item had no
  // successor or the list was empty: only the empty branch resets `next`.
  method AddItemToArray(parent: Node?, item: Node?, ghost sh: Shape, ghost x: Shape) returns (ok: bool)
    requires parent != null ==> Tree(sh) && sh.node == parent
    requires item != null ==> Tree(x) && x.node == item
    requires parent != null && item != null && parent != item ==> Blocks(sh) !! Blocks(x)
    modifies Block(parent), Block(item), if parent == null then {} else Roots(sh.kids)
    ensures ok <==> parent != null && item != null && parent != item
    ensures ok ==> (Tree(sh.(kids := sh.kids + [x])) <==> sh.kids == [] || old(item.next) == null)
    ensures ok ==> Blocks(sh.(kids := sh.kids + [x])) == Blocks(sh) + Blocks(x)
    ensures !ok ==> (parent != null ==> Tree(sh)) && (item != null ==> unchanged(item))
  {
    hide Tree, Blocks, BlocksOf;
    if item == null || parent == null || parent == item {
      return false;
    }
    TreeParts(sh);
    var child := parent.child;
    if child == null {
      StartList(parent, item, sh, x);
    } else {
      if child.prev != null {
        AppendToList(parent, child, item, sh, x);
      }
    }
    ok := true;
  }

  method StartList(parent: Node, item: Node, ghost sh: Shape, ghost x: Shape)
    requires Tree(sh) && sh.node == parent && Tree(x) && x.node == item && Blocks(sh) !! Blocks(x)
    requires sh.kids == []
    modifies parent, item
    ensures Tree(sh.(kids := sh.kids + [x])) && Blocks(sh.(kids := sh.kids + [x])) == Blocks(sh) + Blocks(x)
  {
    hide Tree, Wired, Blocks, BlocksOf, Separate, SeparateAll, Intact, Inside;
    TreeParts(sh);
    TreeParts(x);
    assert Wired(x) && Separate(x) by { TreeHas(x); }
    SeparateOne(x);
    assert AllWired([x]);
    IntactMeans([x]);
    InsideApart([x]);
    assert [x][0].node == item;
    assert parent !in Inside([x]) && parent !in Members([x]);
    parent.child := item;
    item.prev := item;
    item.next := null;
    assert Intact([x]);
    IntactMeans([x]);
    assert sh.kids + [x] == [x];
    NothingSeparate();
    TreeWith(sh, [x]);
  }

  lemma TreeHas(sh: Shape)
    requires Tree(sh)
    ensures Wired(sh) && Separate(sh)
  {
  }

  method AppendToList(parent: Node, child: Node, item: Node, ghost sh: Shape, ghost x: Shape)
    requires Tree(sh) && sh.node == parent && Tree(x) && x.node == item && Blocks(sh) !! Blocks(x)
    requires sh.kids != [] && child == parent.child
    modifies item, Roots(sh.kids)
    ensures Tree(sh.(kids := sh.kids + [x])) <==> old(item.next) == null
    ensures Blocks(sh.(kids := sh.kids + [x])) == Blocks(sh) + Blocks(x)
  {
    hide Tree, Wired, Blocks, BlocksOf, Separate, SeparateAll, Labelled, Linked, AllWired;
    ghost var kids := sh.kids;
    ghost var all := kids + [x];
    TreeParts(sh);
    TreeHas(x);
    SeparateSnoc(kids, x);
    BlocksAppend(kids, x);
    WiredSnoc(kids, x);
    Append(child, item, kids, x);
    BlocksParts(x);
    if item.next == null {
      TreeWith(sh, all);
    }
    if Tree(sh.(kids := all)) {
      TreeIsLinked(sh.(kids := all));
    }
    BlocksParts(sh.(kids := all));
  }

  lemma WiredSnoc(kids: seq<Shape>, x: Shape)
    requires AllWired(kids) && Wired(x)
    ensures AllWired(kids + [x])
  {
    hide Wired;
    assert forall i | 0 <= i < |kids| :: (kids + [x])[i] == kids[i];
  }

  method Append(child: Node, item: Node, ghost kids: seq<Shape>, ghost x: Shape)
    requires AllWired(kids + [x]) && SeparateAll(kids + [x]) && Linked(kids)
    requires kids != [] && child == kids[0].node && item == x.node
    modifies item, Roots(kids)
    ensures AllWired(kids + [x]) && item.next == old(item.next)
    ensures Linked(kids + [x]) <==> item.next == null
  {
    hide Wired, Blocks, BlocksOf, Separate, SeparateAll, Labelled, Intact, Inside, AllWired;
    ghost var all := kids + [x];
    ListApart(all);
    IntactMeans(all);
    InsideApart(all);
    assert forall i | 0 <= i < |kids| :: all[i] == kids[i];
    assert all[|kids|] == x;
    var last := child.prev;
    assert last == all[|kids| - 1].node;
    last.next := item;
    item.prev := last;
    child.prev := item;
    assert Intact(all);
    IntactMeans(all);
    if Linked(all) {
      assert all[|kids|].node.next == NodeAt(all, |all|);
    }
  }

  // ---- Lookup ----

  // get_array_item
  method GetArrayItem(parent: Node?, index: nat, ghost sh: Shape) returns (found: Node?)
    requires parent != null ==> Tree(sh) && sh.node == parent
    ensures found == if parent == null then null else NodeAt(sh.kids, index)
    ensures parent != null ==> Tree(sh)
  {
    hide Tree, Wired, Blocks, BlocksOf, SeparateAll, AllWired;
    if parent == null {
      return null;
    }
    TreeParts(sh);
    ghost var kids := sh.kids;
    found := parent.child;
    var left := index;
    while found != null && left > 0
      invariant 0 <= left <= index && found == NodeAt(kids, index - left)
      decreases left
    {
      left := left - 1;
      found := found.next;
    }
    assert left == 0 || index - left >= |kids|;
  }

  // ---- Insert ----

  ghost function Inserted(kids: seq<Shape>, w: nat, x: Shape): seq<Shape>
    requires w <= |kids|
  {
    kids[..w] + [x] + kids[w..]
  }

  // cJSON_InsertItemInArray: insert before position `which`, or append behind the end.
  method InsertItemInArray(parent: Node?, which: int, newitem: Node?, ghost sh: Shape, ghost x: Shape)
    returns (ok: bool)
    requires parent != null ==> Tree(sh) && sh.node == parent
    requires newitem != null ==> Tree(x) && x.node == newitem
    requires parent != null && newitem != null ==> Blocks(sh) !! Blocks(x)
    modifies Block(parent), Block(newitem), if parent == null then {} else Roots(sh.kids)
    ensures ok <==> which >= 0 && parent != null && newitem != null
    ensures ok && which < |sh.kids| ==> Tree(sh.(kids := Inserted(sh.kids, which, x)))
    ensures ok && which >= |sh.kids| ==>
              (Tree(sh.(kids := sh.kids + [x])) <==> sh.kids == [] || old(newitem.next) == null)
    ensures ok ==> Blocks(sh.(kids := if which < |sh.kids| then Inserted(sh.kids, which, x) else sh.kids + [x]))
                   == Blocks(sh) + Blocks(x)
  {
    hide Tree, Blocks, BlocksOf;
    if which < 0 || newitem == null {
      return false;
    }
    BlocksAllocated(x);
    var after := GetArrayItem(parent, which, sh);
    if after == null {
      ok := AddItemToArray(parent, newitem, sh, x);
      return;
    }
    TreeParts(sh);
    if after != parent.child && after.prev == null {
      return false;
    }
    InsertInTree(parent, after, newitem, sh, x, which);
    ok := true;
  }

  method InsertInTree(parent: Node, after: Node, newitem: Node, ghost sh: Shape, ghost x: Shape, ghost w: nat)
    requires Tree(sh) && sh.node == parent && Tree(x) && x.node == newitem && Blocks(sh) !! Blocks(x)
    requires w < |sh.kids| && after == sh.kids[w].node
    modifies parent, newitem, Roots(sh.kids)
    ensures Tree(sh.(kids := Inserted(sh.kids, w, x)))
    ensures Blocks(sh.(kids := Inserted(sh.kids, w, x))) == Blocks(sh) + Blocks(x)
  {
    hide Tree, Wired, Blocks, BlocksOf, Separate, SeparateAll, Linked, AllWired, Inside;
    ghost var kids := sh.kids;
    TreeParts(sh);
    TreeHas(x);
    SeparateSnoc(kids, x);
    BlocksAppend(kids, x);
    WiredSnoc(kids, x);
    SeparateInsert(kids, w, x);
    RootAside(sh, kids + [x]);
    assert Own(sh) !! Blocks(x);
    InsertBefore(parent, after, newitem, kids, w, x);
    TreeWith(sh, Inserted(kids, w, x));
  }

  lemma RootAside(sh: Shape, all: seq<Shape>)
    requires SeparateAll(all) && sh.node !in BlocksOf(all)
    ensures sh.node !in Inside(all) && sh.node !in Members(all)
  {
    hide Blocks, BlocksOf, SeparateAll, Inside;
    InsideApart(all);
    assert Members(all) <= Roots(all);
  }

  lemma SameElements(all: seq<Shape>, part: seq<Shape>)
    requires AllWired(all) && forall i | 0 <= i < |part| :: part[i] in all
    ensures AllWired(part)
  {
    hide Wired;
  }

  // What the writes of an insertion leave: `x` stands between its neighbours.
  ghost predicate Spliced(kids: seq<Shape>, w: nat, x: Shape)
    requires w < |kids|
    reads Roots(kids), x.node
  {
    && (forall i {:trigger kids[i].node.next} | 0 <= i < |kids| ::
          kids[i].node.next == if i + 1 == w then x.node else NodeAt(kids, i + 1))
    && (forall i {:trigger kids[i].node.prev} | 0 < i < |kids| && i != w :: kids[i].node.prev == kids[i - 1].node)
    && x.node.next == kids[w].node && kids[w].node.prev == x.node
    && (if w == 0 then x.node.prev == kids[|kids| - 1].node
        else x.node.prev == kids[w - 1].node && kids[0].node.prev == kids[|kids| - 1].node)
  }

  lemma SplicedIsLinked(kids: seq<Shape>, w: nat, x: Shape)
    requires w < |kids| && Spliced(kids, w, x)
    ensures Linked(Inserted(kids, w, x))
  {
    var more := Inserted(kids, w, x);
    assert forall i | 0 <= i < |more| :: more[i] == if i < w then kids[i] else if i == w then x else kids[i - 1];
  }

  lemma InsertedElements(kids: seq<Shape>, w: nat, x: Shape)
    requires w <= |kids|
    ensures forall i | 0 <= i < |Inserted(kids, w, x)| :: Inserted(kids, w, x)[i] in kids + [x]
  {
    var all, more := kids + [x], Inserted(kids, w, x);
    assert all[|kids|] == x && forall i | 0 <= i < |kids| :: all[i] == kids[i];
    assert forall i | 0 <= i < |more| :: more[i] == if i < w then kids[i] else if i == w then x else kids[i - 1];
  }

  method InsertBefore(parent: Node, after: Node, newitem: Node, ghost kids: seq<Shape>, ghost w: nat, ghost x: Shape)
    requires AllWired(kids + [x]) && SeparateAll(kids + [x]) && Linked(kids)
    requires parent !in Inside(kids + [x]) && parent !in Members(kids + [x]) && parent.child == First(kids)
    requires w < |kids| && after == kids[w].node && newitem == x.node
    modifies parent`child, newitem, Roots(kids)
    ensures parent.child == First(Inserted(kids, w, x))
    ensures AllWired(Inserted(kids, w, x)) && Linked(Inserted(kids, w, x))
  {
    hide Wired, Blocks, BlocksOf, Separate, SeparateAll, Labelled, Intact, Inside, AllWired, Linked, Inserted;
    ghost var all := kids + [x];
    IntactMeans(all);
    InsideApart(all);
    AllBlocksAllocated(all);
    RootsOutside(kids, x);
    Splice(parent, after, newitem, kids, w, x);
    SplicedIsLinked(kids, w, x);
    assert Intact(all);
    IntactMeans(all);
    InsertedElements(kids, w, x);
    SameElements(all, Inserted(kids, w, x));
  }

  method Splice(parent: Node, after: Node, newitem: Node, ghost kids: seq<Shape>, ghost w: nat, ghost x: Shape)
    requires SeparateAll(kids + [x]) && Linked(kids)
    requires parent.child == First(kids)
    requires w < |kids| && after == kids[w].node && newitem == x.node
    modifies parent`child, newitem`next, newitem`prev, Members(kids)`next, Members(kids)`prev
    ensures parent.child == First(Inserted(kids, w, x))
    ensures Spliced(kids, w, x)
  {
    hide Wired, Blocks, BlocksOf, Separate, SeparateAll, Labelled, Intact, Inside, AllWired;
    ghost var all := kids + [x];
    RootsDiffer(kids, x);
    newitem.next := after;
    newitem.prev := after.prev;
    after.prev := newitem;
    if after == parent.child {
      parent.child := newitem;
    } else {
      newitem.prev.next := newitem;
    }
  }

  lemma RootsDiffer(kids: seq<Shape>, x: Shape)
    requires SeparateAll(kids + [x])
    ensures forall i, j | 0 <= i < j < |kids| :: kids[i].node != kids[j].node
    ensures forall i | 0 <= i < |kids| :: kids[i].node != x.node && (kids + [x])[i] == kids[i]
  {
    hide Blocks, BlocksOf, Separate, SeparateAll;
    var all := kids + [x];
    ListApart(all);
    assert all[|kids|] == x && forall i | 0 <= i < |kids| :: all[i] == kids[i];
  }

  // ---- Detach ----

  ghost function Removed(kids: seq<Shape>, w: nat): seq<Shape>
    requires w < |kids|
  {
    kids[..w] + kids[w + 1..]
  }

  // cJSON_DetachItemViaPointer
  method DetachItemViaPointer(parent: Node?, item: Node?, ghost sh: Shape, ghost w: nat) returns (detached: Node?)
    requires parent != null && item != null ==>
             Tree(sh) && sh.node == parent && w < |sh.kids| && item == sh.kids[w].node
    modifies if parent == null || item == null then {} else {parent} + Roots(sh.kids)
    ensures detached == if parent == null then null else item
    ensures detached != null ==> Tree(sh.(kids := Removed(sh.kids, w)))
    ensures detached != null ==> Blocks(sh.(kids := Removed(sh.kids, w))) == Blocks(sh) - Blocks(sh.kids[w])
    ensures detached != null ==> Tree(sh.kids[w]) && detached.next == null && detached.prev == null
    ensures detached != null ==> Blocks(sh.kids[w]) <= Blocks(sh)
  {
    hide Tree, Wired, Blocks, BlocksOf, Separate, SeparateAll, Linked, AllWired, Inside;
    if parent == null || item == null {
      return null;
    }
    ghost var kids := sh.kids;
    TreeParts(sh);
    SeparateRemove(kids, w);
    RootAside(sh, kids);
    Unlink(parent, item, kids, w);
    TreeWith(sh, Removed(kids, w));
    TreeFrom(kids[w]);
    detached := item;
  }

  lemma TreeFrom(sh: Shape)
    requires Wired(sh) && Separate(sh)
    ensures Tree(sh)
  {
  }

  // What the writes of a removal leave: the neighbours of position `w` see each other.
  ghost predicate Bridged(kids: seq<Shape>, w: nat)
    requires w < |kids|
    reads Roots(kids)
  {
    && (forall i {:trigger kids[i].node.next} | 0 <= i < |kids| && i != w ::
          kids[i].node.next == NodeAt(kids, if i + 1 == w then w + 1 else i + 1))
    && (forall i {:trigger kids[i].node.prev} | 0 < i < |kids| && i != w && i != w + 1 ::
          kids[i].node.prev == kids[i - 1].node)
    && (0 < w < |kids| - 1 ==> kids[w + 1].node.prev == kids[w - 1].node)
    && (|kids| > 1 ==> (if w == 0 then kids[1] else kids[0]).node.prev
                       == (if w == |kids| - 1 then kids[w - 1] else kids[|kids| - 1]).node)
  }

  lemma BridgedIsLinked(kids: seq<Shape>, w: nat)
    requires w < |kids| && Bridged(kids, w)
    ensures Linked(Removed(kids, w))
  {
    var rest := Removed(kids, w);
    assert forall i | 0 <= i < |rest| :: rest[i] == if i < w then kids[i] else kids[i + 1];
  }

  method Unlink(parent: Node, item: Node, ghost kids: seq<Shape>, ghost w: nat)
    requires AllWired(kids) && SeparateAll(kids) && Linked(kids)
    requires parent !in Inside(kids) && parent !in Members(kids) && parent.child == First(kids)
    requires w < |kids| && item == kids[w].node
    modifies parent`child, Roots(kids)
    ensures parent.child == First(Removed(kids, w))
    ensures AllWired(Removed(kids, w)) && Linked(Removed(kids, w)) && Wired(kids[w])
    ensures item.next == null && item.prev == null
  {
    hide Wired, Blocks, BlocksOf, Separate, SeparateAll, Labelled, Intact, Inside, AllWired;
    IntactMeans(kids);
    InsideApart(kids);
    AllBlocksAllocated(kids);
    Bridge(parent, item, kids, w);
    BridgedIsLinked(kids, w);
    assert Intact(kids);
    IntactMeans(kids);
    SameElements(kids, Removed(kids, w));
    WiredAt(kids, w);
  }

  lemma WiredAt(kids: seq<Shape>, w: nat)
    requires AllWired(kids) && w < |kids|
    ensures Wired(kids[w])
  {
    hide Wired;
  }

  method Bridge(parent: Node, item: Node, ghost kids: seq<Shape>, ghost w: nat)
    requires SeparateAll(kids) && Linked(kids)
    requires parent.child == First(kids)
    requires w < |kids| && item == kids[w].node
    modifies parent`child, Members(kids)`next, Members(kids)`prev
    ensures parent.child == First(Removed(kids, w))
    ensures Bridged(kids, w)
    ensures item.next == null && item.prev == null
  {
    hide Wired, Blocks, BlocksOf, Separate, SeparateAll, Labelled, Intact, Inside, AllWired;
    ListApart(kids);
    if item != parent.child {
      item.prev.next := item.next;
    }
    if item.next != null {
      item.next.prev := item.prev;
    }
    if item == parent.child {
      parent.child := item.next;
    } else if item.next == null {
      parent.child.prev := item.prev;
    }
    item.prev := null;
    item.next := null;
  }

  // cJSON_DetachItemFromArray
  method DetachItemFromArray(parent: Node?, which: int, ghost sh: Shape) returns (detached: Node?)
    requires parent != null ==> Tree(sh) && sh.node == parent
    modifies Block(parent), if parent == null then {} else Roots(sh.kids)
    ensures detached == if parent == null then null else NodeAt(sh.kids, which)
    ensures detached != null ==> Tree(sh.(kids := Removed(sh.kids, which))) && Tree(sh.kids[which])
    ensures detached != null ==> Blocks(sh.(kids := Removed(sh.kids, which))) == Blocks(sh) - Blocks(sh.kids[which])
    ensures detached != null ==> Blocks(sh.kids[which]) <= Blocks(sh) && detached.next == null && detached.prev == null
    ensures parent != null && detached == null ==> Tree(sh)
  {
    hide Tree, Blocks;
    if which < 0 {
      return null;
    }
    var item := GetArrayItem(parent, which, sh);
    BlocksAllocated(sh);
    detached := DetachItemViaPointer(parent, item, sh, which);
  }

  // cJSON_DeleteItemFromArray: takes the item out and frees exactly its blocks.
  method DeleteItemFromArray(parent: Node?, which: int, mem: Allocator, ghost sh: Shape)
    requires parent != null ==> Tree(sh) && sh.node == parent && Blocks(sh) <= mem.live && mem !in Blocks(sh)
    modifies Block(parent), mem, if parent == null then {} else Roots(sh.kids)
    ensures parent != null && 0 <= which < |sh.kids| ==>
              && Tree(sh.(kids := Removed(sh.kids, which)))
              && Blocks(sh.(kids := Removed(sh.kids, which))) == Blocks(sh) - Blocks(sh.kids[which])
              && mem.live == old(mem.live) - Blocks(sh.kids[which])
    ensures parent == null || !(0 <= which < |sh.kids|) ==> mem.live == old(mem.live) && (parent != null ==> Tree(sh))
  {
    hide Tree, Blocks;
    var item := DetachItemFromArray(parent, which, sh);
    if item != null {
      TreeHas(sh.kids[which]);
      DeleteTree(item, mem, sh.kids[which]);
    }
  }

  // ---- Replace ----

  // What the writes of a replacement leave.
  ghost predicate Swapped(kids: seq<Shape>, w: nat, x: Shape)
    requires w < |kids|
    reads Roots(kids), x.node
  {
    && (forall i {:trigger kids[i].node.next} | 0 <= i < |kids| && i != w ::
          kids[i].node.next == if i + 1 == w then x.node else NodeAt(kids, i + 1))
    && (forall i {:trigger kids[i].node.prev} | 0 < i < |kids| && i != w ::
          kids[i].node.prev == if i == w + 1 then x.node else kids[i - 1].node)
    && x.node.next == NodeAt(kids, w + 1)
    && (if w > 0 then x.node.prev == kids[w - 1].node
        else x.node.prev == if |kids| == 1 then x.node else kids[|kids| - 1].node)
    && (w > 0 ==> kids[0].node.prev == if w == |kids| - 1 then x.node else kids[|kids| - 1].node)
  }

  lemma SwappedIsLinked(kids: seq<Shape>, w: nat, x: Shape)
    requires w < |kids| && Swapped(kids, w, x)
    ensures Linked(kids[w := x])
  {
    var more := kids[w := x];
    assert forall i | 0 <= i < |more| :: more[i] == if i == w then x else kids[i];
  }

  // cJSON_ReplaceItemViaPointer: the replacement takes the place of the item, which is freed.
  method ReplaceItemViaPointer(parent: Node?, item: Node?, replacement: Node?, mem: Allocator,
                               ghost sh: Shape, ghost w: nat, ghost x: Shape) returns (ok: bool)
    requires parent != null ==> Tree(sh) && sh.node == parent && Blocks(sh) <= mem.live && mem !in mem.live
    requires parent != null && parent.child != null && item != null ==> w < |sh.kids| && item == sh.kids[w].node
    requires replacement != null && replacement != item ==> Tree(x) && x.node == replacement && Blocks(x) <= mem.live
    requires parent != null && replacement != null && replacement != item ==> Blocks(sh) !! Blocks(x)
    modifies Block(parent), Block(replacement), mem, if parent == null then {} else Roots(sh.kids)
    ensures ok <==> parent != null && sh.kids != [] && replacement != null && item != null
    ensures ok && replacement != item ==>
              && Tree(sh.(kids := sh.kids[w := x]))
              && Blocks(sh.(kids := sh.kids[w := x])) == Blocks(sh) - Blocks(sh.kids[w]) + Blocks(x)
              && mem.live == old(mem.live) - Blocks(sh.kids[w])
    ensures !ok || replacement == item ==> mem.live == old(mem.live) && (parent != null ==> Tree(sh))
  {
    hide Tree, Wired, Blocks, BlocksOf, Separate, SeparateAll, Linked, AllWired;
    if parent != null {
      TreeParts(sh);
    }
    if parent == null || parent.child == null || replacement == null || item == null {
      return false;
    }
    ok := true;
    if replacement != item {
      ReplaceInTree(parent, item, replacement, mem, sh, w, x);
    }
  }

  method ReplaceInTree(parent: Node, item: Node, replacement: Node, mem: Allocator,
                       ghost sh: Shape, ghost w: nat, ghost x: Shape)
    requires Tree(sh) && sh.node == parent && Blocks(sh) <= mem.live && mem !in mem.live
    requires w < |sh.kids| && item == sh.kids[w].node
    requires Tree(x) && x.node == replacement && Blocks(x) <= mem.live && Blocks(sh) !! Blocks(x)
    modifies parent, replacement, mem, Roots(sh.kids)
    ensures Tree(sh.(kids := sh.kids[w := x]))
    ensures Blocks(sh.(kids := sh.kids[w := x])) == Blocks(sh) - Blocks(sh.kids[w]) + Blocks(x)
    ensures mem.live == old(mem.live) - Blocks(sh.kids[w])
  {
    hide Tree, Wired, Blocks, BlocksOf, Separate, SeparateAll, Linked, AllWired, Inside;
    ghost var kids := sh.kids;
    TreeParts(sh);
    TreeHas(x);
    SeparateSnoc(kids, x);
    BlocksAppend(kids, x);
    WiredSnoc(kids, x);
    RootAside(sh, kids + [x]);
    SeparateSwap(kids, w, x);
    assert Own(sh) !! Blocks(x);
    SwapIn(parent, item, replacement, kids, w, x);
    TreeWith(sh, kids[w := x]);
    ghost var after := sh.(kids := kids[w := x]);
    assert Blocks(after) <= mem.live;
    DeleteTree(item, mem, kids[w]);
  }

  lemma SeparateSwap(kids: seq<Shape>, w: nat, x: Shape)
    requires w < |kids| && SeparateAll(kids) && Separate(x) && Blocks(x) !! BlocksOf(kids)
    ensures SeparateAll(kids[w := x]) && Separate(kids[w]) && Blocks(kids[w]) <= BlocksOf(kids)
    ensures BlocksOf(kids[w := x]) == BlocksOf(kids) - Blocks(kids[w]) + Blocks(x)
  {
    hide Blocks, BlocksOf, Separate, SeparateAll;
    SeparateRemove(kids, w);
    SeparateInsert(Removed(kids, w), w, x);
    assert Inserted(Removed(kids, w), w, x) == kids[w := x];
  }

  lemma MemberOf(kids: seq<Shape>, x: Shape)
    ensures Members(kids) <= Members(kids + [x]) && x.node in Members(kids + [x])
  {
    var all := kids + [x];
    assert all[|kids|] == x && forall i | 0 <= i < |kids| :: all[i] == kids[i];
  }

  method SwapIn(parent: Node, item: Node, replacement: Node, ghost kids: seq<Shape>, ghost w: nat, ghost x: Shape)
    requires AllWired(kids + [x]) && SeparateAll(kids + [x]) && Linked(kids)
    requires parent !in Inside(kids + [x]) && parent !in Members(kids + [x]) && parent.child == First(kids)
    requires w < |kids| && item == kids[w].node && replacement == x.node
    modifies parent`child, replacement, Roots(kids)
    ensures parent.child == First(kids[w := x])
    ensures AllWired(kids[w := x]) && Linked(kids[w := x]) && Wired(kids[w])
    ensures item.next == null && item.prev == null
  {
    hide Wired, Blocks, BlocksOf, Separate, SeparateAll, Labelled, Intact, Inside, AllWired, Linked;
    ghost var all := kids + [x];
    IntactMeans(all);
    InsideApart(all);
    AllBlocksAllocated(all);
    RootsOutside(kids, x);
    MemberOf(kids, x);
    Swap(parent, item, replacement, kids, w, x);
    SwappedIsLinked(kids, w, x);
    assert Intact(all);
    IntactMeans(all);
    assert all[|kids|] == x && forall i | 0 <= i < |kids| :: all[i] == kids[i];
    SameElements(all, kids[w := x]);
    WiredAt(all, w);
  }

  // The replacement knows the neighbours of position `w`, and the next one knows it.
  ghost predicate HalfSwapped(kids: seq<Shape>, w: nat, x: Shape)
    requires w < |kids|
    reads Roots(kids), x.node
  {
    && (forall i {:trigger kids[i].node.next} | 0 <= i < |kids| :: kids[i].node.next == NodeAt(kids, i + 1))
    && (forall i {:trigger kids[i].node.prev} | 0 < i < |kids| ::
          kids[i].node.prev == if i == w + 1 then x.node else kids[i - 1].node)
    && kids[0].node.prev == kids[|kids| - 1].node
    && x.node.next == NodeAt(kids, w + 1)
    && x.node.prev == (if w > 0 then kids[w - 1] else kids[|kids| - 1]).node
  }

  ghost predicate Apart(kids: seq<Shape>, x: Shape) {
    && (forall i, j | 0 <= i < j < |kids| :: kids[i].node != kids[j].node)
    && (forall i | 0 <= i < |kids| :: kids[i].node != x.node)
  }

  lemma RootsApart(kids: seq<Shape>, x: Shape)
    requires SeparateAll(kids + [x])
    ensures Apart(kids, x)
    ensures forall i | 0 < i < |kids| :: kids[i].node != kids[0].node
  {
    hide SeparateAll;
    RootsDiffer(kids, x);
  }

  method MeetNeighbours(item: Node, replacement: Node, ghost kids: seq<Shape>, ghost w: nat, ghost x: Shape)
    requires Apart(kids, x) && Linked(kids) && w < |kids| && item == kids[w].node && replacement == x.node
    modifies replacement`next, replacement`prev, Members(kids)`next, Members(kids)`prev
    ensures HalfSwapped(kids, w, x)
  {
    assert item.next == NodeAt(kids, w + 1);
    assert item.prev == (if w > 0 then kids[w - 1] else kids[|kids| - 1]).node;
    replacement.next := item.next;
    replacement.prev := item.prev;
    if replacement.next != null {
      replacement.next.prev := replacement;
    }
  }

  // The item was the first child.
  method TakeFirst(parent: Node, replacement: Node, ghost kids: seq<Shape>, ghost x: Shape)
    requires Apart(kids, x) && kids != [] && HalfSwapped(kids, 0, x) && replacement == x.node
    requires parent !in Members(kids) && parent != x.node && parent.child == kids[0].node
    modifies parent`child, replacement`prev
    ensures Swapped(kids, 0, x) && parent.child == replacement
  {
    assert parent.child.prev == kids[|kids| - 1].node;
    if parent.child.prev == parent.child {
      replacement.prev := replacement;
    }
    parent.child := replacement;
  }

  // The item was a later child.
  method TakeLater(parent: Node, replacement: Node, ghost kids: seq<Shape>, ghost w: nat, ghost x: Shape)
    requires Apart(kids, x) && 0 < w < |kids| && HalfSwapped(kids, w, x) && replacement == x.node
    requires parent !in Members(kids) && parent != x.node && parent.child == kids[0].node
    modifies Members(kids)`next, Members(kids)`prev
    ensures Swapped(kids, w, x)
  {
    assert replacement.prev == kids[w - 1].node && replacement.next == NodeAt(kids, w + 1);
    if replacement.prev != null {
      replacement.prev.next := replacement;
    }
    if replacement.next == null {
      parent.child.prev := replacement;
    }
  }

  method Swap(parent: Node, item: Node, replacement: Node, ghost kids: seq<Shape>, ghost w: nat, ghost x: Shape)
    requires SeparateAll(kids + [x]) && Linked(kids) && parent !in Members(kids) && parent != x.node
    requires parent.child == First(kids)
    requires w < |kids| && item == kids[w].node && replacement == x.node
    modifies parent`child, replacement`next, replacement`prev, Members(kids)`next, Members(kids)`prev
    ensures parent.child == First(kids[w := x])
    ensures Swapped(kids, w, x)
    ensures item.next == null && item.prev == null
  {
    hide SeparateAll, HalfSwapped, Swapped, Linked, Apart;
    RootsApart(kids, x);
    MeetNeighbours(item, replacement, kids, w, x);
    if parent.child == item {
      assert w == 0;
      TakeFirst(parent, replacement, kids, x);
    } else {
      TakeLater(parent, replacement, kids, w, x);
    }
    ClearLinks(item, kids, w, x);
  }

  method ClearLinks(item: Node, ghost kids: seq<Shape>, ghost w: nat, ghost x: Shape)
    requires Apart(kids, x) && w < |kids| && Swapped(kids, w, x) && item == kids[w].node
    modifies item`next, item`prev
    ensures Swapped(kids, w, x) && item.next == null && item.prev == null
  {
    item.next := null;
    item.prev := null;
  }

  // cJSON_ReplaceItemInArray
  method ReplaceItemInArray(parent: Node?, which: int, newitem: Node?, mem: Allocator, ghost sh: Shape, ghost x: Shape)
    returns (ok: bool)
    requires parent != null ==> Tree(sh) && sh.node == parent && Blocks(sh) <= mem.live && mem !in mem.live
    requires newitem != null ==> Tree(x) && x.node == newitem && Blocks(x) <= mem.live
    requires parent != null && newitem != null ==> Blocks(sh) !! Blocks(x)
    modifies Block(parent), Block(newitem), mem, if parent == null then {} else Roots(sh.kids)
    ensures ok <==> parent != null && newitem != null && 0 <= which < |sh.kids|
    ensures ok ==> Tree(sh.(kids := sh.kids[which := x])) && mem.live == old(mem.live) - Blocks(sh.kids[which])
    ensures !ok ==> mem.live == old(mem.live) && (parent != null ==> Tree(sh))
  {
    hide Tree, Blocks;
    if which < 0 {
      return false;
    }
    var item := GetArrayItem(parent, which, sh);
    if item != null && newitem != null {
      KidInside(sh, which);
    }
    ok := ReplaceItemViaPointer(parent, item, newitem, mem, sh, which, x);
  }

  lemma KidInside(sh: Shape, w: nat)
    requires w < |sh.kids|
    ensures sh.kids[w].node in Blocks(sh)
  {
    assert sh.kids[w].node in Roots(sh.kids);
    BlocksParts(sh);
  }

  // ---- What the operations mean for the value of an array ----

  lemma ChildrenAct(kids: seq<Shape>, w: nat, x: Shape)
    requires ValuedAll(kids) && Valued(x)
    ensures ValuedAll(kids + [x]) && ItemsOf(kids + [x]) == ItemsOf(kids) + [ValueOf(x)]
    ensures w <= |kids| ==>
              && ValuedAll(Inserted(kids, w, x))
              && ItemsOf(Inserted(kids, w, x)) == ItemsOf(kids)[..w] + [ValueOf(x)] + ItemsOf(kids)[w..]
    ensures w < |kids| ==>
              && ValuedAll(Removed(kids, w)) && ItemsOf(Removed(kids, w)) == ItemsOf(kids)[..w] + ItemsOf(kids)[w + 1..]
              && ValuedAll(kids[w := x]) && ItemsOf(kids[w := x]) == ItemsOf(kids)[w := ValueOf(x)]
  {
    hide Valued, ValueOf;
  }

  // The same for the members of an object.
  lemma MembersAct(kids: seq<Shape>, w: nat, x: Shape)
    requires ValuedAll(kids) && Valued(x)
    ensures ValuedAll(kids + [x]) && MembersOf(kids + [x]) == MembersOf(kids) + [Member(x.name, ValueOf(x))]
    ensures w <= |kids| ==>
              && ValuedAll(Inserted(kids, w, x))
              && MembersOf(Inserted(kids, w, x))
                 == MembersOf(kids)[..w] + [Member(x.name, ValueOf(x))] + MembersOf(kids)[w..]
    ensures w < |kids| ==>
              && ValuedAll(Removed(kids, w))
              && MembersOf(Removed(kids, w)) == MembersOf(kids)[..w] + MembersOf(kids)[w + 1..]
              && ValuedAll(kids[w := x]) && MembersOf(kids[w := x]) == MembersOf(kids)[w := Member(x.name, ValueOf(x))]
  {
    hide Valued, ValueOf;
  }
}
