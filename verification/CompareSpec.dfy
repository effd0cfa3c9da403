/**
 What cJSON_Compare decides, on values, and its reference: equality of canonical values that
 read every object as an unordered map.
 */
module CompareSpec {
  import opened Numbers
  import opened JsonValue

  // Among the numbers of a C int the tolerance is void.
  lemma IntsCompareExactly(a: real, b: real)
    requires IsInt(a) && IsInt(b)
    ensures CompareDouble(a, b) <==> a == b
  {
    var i, j := Saturate(a), Saturate(b);
    assert a - b == (i - j) as real;
    var m := if Abs(a) > Abs(b) then Abs(a) else Abs(b);
    assert m <= 2147483648.0;
    assert m * EPSILON <= 2147483648.0 * EPSILON < 1.0;
    if i != j {
      assert Abs(a - b) >= 1.0;
    } else {
      assert m * EPSILON >= 0.0;
    }
  }

  // tolower in the C locale.
  function ToLower(c: char): char {
    if 'A' <= c <= 'Z' then (c as int + 32) as char else c
  }

  function Fold(s: string): (f: string)
    ensures |f| == |s|
  {
    seq(|s|, i requires 0 <= i < |s| => ToLower(s[i]))
  }

  // What two keys are compared by.
  function KeyOf(key: string, caseSensitive: bool): string {
    if caseSensitive then key else Fold(key)
  }

  // The same character, or the two cases of one ASCII letter.
  predicate LetterCases(x: char, y: char) {
    || x == y
    || ('A' <= x <= 'Z' && y as int == x as int + 32)
    || ('A' <= y <= 'Z' && x as int == y as int + 32)
  }

  // Two keys agree when they are equal or, if case does not count, equal up to the case of
  // ASCII letters.
  predicate KeysAgree(a: string, b: string, caseSensitive: bool) {
    if caseSensitive then a == b else |a| == |b| && forall i | 0 <= i < |a| :: LetterCases(a[i], b[i])
  }

  lemma LowerExactly(x: char, y: char)
    ensures ToLower(x) == ToLower(y) <==> LetterCases(x, y)
  {
  }

  lemma KeysAgreeExactly(a: string, b: string, caseSensitive: bool)
    ensures KeyOf(a, caseSensitive) == KeyOf(b, caseSensitive) <==> KeysAgree(a, b, caseSensitive)
  {
    hide ToLower, LetterCases;
    if !caseSensitive && |a| == |b| {
      forall i | 0 <= i < |a|
        ensures Fold(a)[i] == Fold(b)[i] <==> LetterCases(a[i], b[i])
      {
        LowerExactly(a[i], b[i]);
      }
    }
  }

  // Index of the first member with that key, or -1.
  function Lookup(members: seq<Member>, key: string, cs: bool): (i: int)
    ensures -1 <= i < |members|
    ensures i >= 0 ==> KeyOf(members[i].key, cs) == KeyOf(key, cs)
    ensures forall k | 0 <= k < |members| && (i < 0 || k < i) :: KeyOf(members[k].key, cs) != KeyOf(key, cs)
  {
    if members == [] then -1
    else if KeyOf(members[0].key, cs) == KeyOf(key, cs) then 0
    else
      var i := Lookup(members[1..], key, cs);
      assert forall k | 0 < k < |members| :: members[k] == members[1..][k - 1];
      if i < 0 then -1 else i + 1
  }

  lemma {:induction false} ItemNests(items: seq<Json>, i: nat)
    requires i < |items|
    ensures Nesting(items[i]) <= ItemsNesting(items)
  {
    if i > 0 {
      ItemNests(items[1..], i - 1);
    }
  }

  lemma {:induction false} MemberNests(members: seq<Member>, i: nat)
    requires i < |members|
    ensures Nesting(members[i].value) <= MembersNesting(members)
  {
    if i > 0 {
      MemberNests(members[1..], i - 1);
    }
  }

  // cJSON_Compare on two separate trees.
  ghost predicate Same(a: Json, b: Json, cs: bool)
    decreases Nesting(a) + Nesting(b), 0
  {
    match a
    case Null => b.Null?
    case False => b.False?
    case True => b.True?
    case Number(num) => b.Number? && CompareDouble(num, b.num)
    case String(text) => b.String? && text == b.text
    case Array(items) => b.Array? && SameItems(items, b.items, cs)
    case Object(members) => b.Object? && Covers(members, b.members, cs) && Covers(b.members, members, cs)
  }

  ghost predicate SameItems(a: seq<Json>, b: seq<Json>, cs: bool)
    decreases ItemsNesting(a) + ItemsNesting(b), 1
  {
    |a| == |b| && forall i | 0 <= i < |a| :: (ItemNests(a, i); ItemNests(b, i); Same(a[i], b[i], cs))
  }

  // Every member of `a` finds its like in `b`.
  ghost predicate Covers(a: seq<Member>, b: seq<Member>, cs: bool)
    decreases MembersNesting(a) + MembersNesting(b), 2
  {
    forall i | 0 <= i < |a| :: Covered(a, i, b, cs)
  }

  ghost predicate Covered(a: seq<Member>, i: nat, b: seq<Member>, cs: bool)
    requires i < |a|
    decreases MembersNesting(a) + MembersNesting(b), 1
  {
    var j := Lookup(b, a[i].key, cs);
    j >= 0 && (MemberNests(a, i); MemberNests(b, j); Same(a[i].value, b[j].value, cs))
  }

  // ---- The same, written out ----

  // The first member with that key.
  predicate FirstWith(members: seq<Member>, j: nat, key: string, cs: bool)
    requires j < |members|
  {
    KeysAgree(members[j].key, key, cs) && forall k | 0 <= k < j :: !KeysAgree(members[k].key, key, cs)
  }

  lemma LookupExactly(members: seq<Member>, j: nat, key: string, cs: bool)
    requires j < |members|
    ensures Lookup(members, key, cs) == j <==> FirstWith(members, j, key, cs)
  {
    hide KeyOf, KeysAgree, Lookup;
    forall k | 0 <= k < |members|
      ensures KeyOf(members[k].key, cs) == KeyOf(key, cs) <==> KeysAgree(members[k].key, key, cs)
    {
      KeysAgreeExactly(members[k].key, key, cs);
    }
  }

  // The same type and content; numbers within the tolerance, array elements in order, and for
  // each member of one object the first member of the other with an agreeing key.
  ghost predicate Matches(a: Json, b: Json, cs: bool)
    decreases Nesting(a) + Nesting(b), 0
  {
    match a
    case Null => b.Null?
    case False => b.False?
    case True => b.True?
    case Number(num) => b.Number? && Close(num, b.num)
    case String(text) => b.String? && text == b.text
    case Array(items) => b.Array? && ItemsMatch(items, b.items, cs)
    case Object(members) => b.Object? && MembersMatch(members, b.members, cs) && MembersMatch(b.members, members, cs)
  }

  ghost predicate ItemsMatch(a: seq<Json>, b: seq<Json>, cs: bool)
    decreases ItemsNesting(a) + ItemsNesting(b), 1
  {
    |a| == |b| && forall i | 0 <= i < |a| :: (ItemNests(a, i); ItemNests(b, i); Matches(a[i], b[i], cs))
  }

  ghost predicate MembersMatch(a: seq<Member>, b: seq<Member>, cs: bool)
    decreases MembersNesting(a) + MembersNesting(b), 3
  {
    forall i | 0 <= i < |a| :: MemberMatches(a, i, b, cs)
  }

  ghost predicate MemberMatches(a: seq<Member>, i: nat, b: seq<Member>, cs: bool)
    requires i < |a|
    decreases MembersNesting(a) + MembersNesting(b), 2
  {
    exists j | 0 <= j < |b| :: MatchAt(a, i, b, j, cs)
  }

  ghost predicate MatchAt(a: seq<Member>, i: nat, b: seq<Member>, j: nat, cs: bool)
    requires i < |a| && j < |b|
    decreases MembersNesting(a) + MembersNesting(b), 1
  {
    MemberNests(a, i);
    MemberNests(b, j);
    FirstWith(b, j, a[i].key, cs) && Matches(a[i].value, b[j].value, cs)
  }

  lemma {:induction false} SameIsMatching(a: Json, b: Json, cs: bool)
    ensures Same(a, b, cs) <==> Matches(a, b, cs)
    decreases Nesting(a) + Nesting(b), 0
  {
    hide CompareDouble, Close;
    match a
    case Number(num) =>
      if b.Number? {
        CompareDoubleExactly(num, b.num);
      }
    case Array(items) =>
      if b.Array? {
        ItemsMatching(items, b.items, cs);
      }
    case Object(members) =>
      if b.Object? {
        MembersMatching(members, b.members, cs);
        MembersMatching(b.members, members, cs);
      }
    case _ =>
  }

  lemma {:induction false} ItemsMatching(a: seq<Json>, b: seq<Json>, cs: bool)
    ensures SameItems(a, b, cs) <==> ItemsMatch(a, b, cs)
    decreases ItemsNesting(a) + ItemsNesting(b), 1
  {
    hide Same, Matches;
    if |a| == |b| {
      forall i | 0 <= i < |a|
        ensures Same(a[i], b[i], cs) <==> Matches(a[i], b[i], cs)
      {
        ItemNests(a, i);
        ItemNests(b, i);
        SameIsMatching(a[i], b[i], cs);
      }
    }
  }

  lemma {:induction false} MembersMatching(a: seq<Member>, b: seq<Member>, cs: bool)
    ensures Covers(a, b, cs) <==> MembersMatch(a, b, cs)
    decreases MembersNesting(a) + MembersNesting(b), 2
  {
    hide Covered, MemberMatches;
    forall i | 0 <= i < |a|
      ensures Covered(a, i, b, cs) <==> MemberMatches(a, i, b, cs)
    {
      MemberMatching(a, i, b, cs);
    }
  }

  lemma {:induction false} MemberMatching(a: seq<Member>, i: nat, b: seq<Member>, cs: bool)
    requires i < |a|
    ensures Covered(a, i, b, cs) <==> MemberMatches(a, i, b, cs)
    decreases MembersNesting(a) + MembersNesting(b), 1
  {
    hide Same, Matches, Lookup, FirstWith;
    forall j | 0 <= j < |b|
      ensures Lookup(b, a[i].key, cs) == j <==> FirstWith(b, j, a[i].key, cs)
      ensures Same(a[i].value, b[j].value, cs) <==> Matches(a[i].value, b[j].value, cs)
    {
      LookupExactly(b, j, a[i].key, cs);
      MemberNests(a, i);
      MemberNests(b, j);
      SameIsMatching(a[i].value, b[j].value, cs);
    }
    if Covered(a, i, b, cs) {
      assert MatchAt(a, i, b, Lookup(b, a[i].key, cs), cs);
    }
  }

  // ---- The reference ----

  datatype Canon =
    | CNull
    | CFalse
    | CTrue
    | CNumber(num: real)
    | CString(text: string)
    | CArray(items: seq<Canon>)
    | CObject(members: map<string, Canon>)

  // A value with its objects as unordered maps.
  ghost function CanonOf(v: Json, cs: bool): Canon {
    match v
    case Null => CNull
    case False => CFalse
    case True => CTrue
    case Number(num) => CNumber(num)
    case String(text) => CString(text)
    case Array(items) => CArray(seq(|items|, i requires 0 <= i < |items| => CanonOf(items[i], cs)))
    case Object(members) => CObject(CanonMembers(members, cs))
  }

  ghost function CanonMembers(members: seq<Member>, cs: bool): map<string, Canon> {
    if members == [] then map[]
    else CanonMembers(members[1..], cs)[KeyOf(members[0].key, cs) := CanonOf(members[0].value, cs)]
  }

  // In every object, members whose keys agree have the same canonical value.
  ghost predicate Consistent(v: Json, cs: bool) {
    match v
    case Array(items) => forall i | 0 <= i < |items| :: Consistent(items[i], cs)
    case Object(members) =>
      && Agreeing(members, cs)
      && forall i | 0 <= i < |members| :: Consistent(members[i].value, cs)
    case _ => true
  }

  ghost predicate Agreeing(members: seq<Member>, cs: bool) {
    forall i, j | 0 <= i < |members| && 0 <= j < |members| && KeyOf(members[i].key, cs) == KeyOf(members[j].key, cs) ::
      CanonOf(members[i].value, cs) == CanonOf(members[j].value, cs)
  }

  // The keys of an object are the domain of its map.
  lemma {:induction false} CanonKeys(members: seq<Member>, cs: bool)
    ensures forall k | k in CanonMembers(members, cs) :: exists i | 0 <= i < |members| :: KeyOf(members[i].key, cs) == k
  {
    hide CanonOf, KeyOf;
    if members != [] {
      var tail := members[1..];
      CanonKeys(tail, cs);
      forall k | k in CanonMembers(members, cs)
        ensures exists i | 0 <= i < |members| :: KeyOf(members[i].key, cs) == k
      {
        if k != KeyOf(members[0].key, cs) {
          assert k in CanonMembers(tail, cs);
          var i :| 0 <= i < |tail| && KeyOf(tail[i].key, cs) == k;
          assert members[i + 1] == tail[i];
        }
      }
    }
  }

  // The first member of a key counts.
  lemma {:induction false} FirstCounts(members: seq<Member>, i: nat, cs: bool)
    requires i < |members|
    ensures KeyOf(members[i].key, cs) in CanonMembers(members, cs)
    ensures Lookup(members, members[i].key, cs) >= 0
    ensures CanonMembers(members, cs)[KeyOf(members[i].key, cs)]
            == CanonOf(members[Lookup(members, members[i].key, cs)].value, cs)
  {
    hide CanonOf, KeyOf;
    if KeyOf(members[i].key, cs) != KeyOf(members[0].key, cs) {
      var tail := members[1..];
      assert tail[i - 1] == members[i];
      FirstCounts(tail, i - 1, cs);
      var j := Lookup(tail, members[i].key, cs);
      assert tail[j] == members[j + 1];
    }
  }

  lemma MapOfAgreeing(members: seq<Member>, i: nat, cs: bool)
    requires Agreeing(members, cs) && i < |members|
    ensures KeyOf(members[i].key, cs) in CanonMembers(members, cs)
    ensures CanonMembers(members, cs)[KeyOf(members[i].key, cs)] == CanonOf(members[i].value, cs)
  {
    hide CanonOf, CanonMembers, KeyOf;
    FirstCounts(members, i, cs);
  }

  // cJSON_Compare, exactly: both values are consistent and their canonical values are equal.
  lemma {:induction false} SameExactly(a: Json, b: Json, cs: bool)
    requires Ints(a) && Ints(b)
    ensures Same(a, b, cs) <==> Consistent(a, cs) && Consistent(b, cs) && CanonOf(a, cs) == CanonOf(b, cs)
    decreases Nesting(a) + Nesting(b), 0
  {
    hide CompareDouble, SameItems, Covers, Agreeing, CanonMembers;
    if a.Number? && b.Number? {
      IntsCompareExactly(a.num, b.num);
    } else if a.Array? && b.Array? {
      ItemsSameExactly(a.items, b.items, cs);
    } else if a.Object? && b.Object? {
      MembersSameExactly(a.members, b.members, cs);
    }
  }

  lemma {:induction false} ItemsSameExactly(a: seq<Json>, b: seq<Json>, cs: bool)
    requires Ints(Array(a)) && Ints(Array(b))
    ensures SameItems(a, b, cs) <==>
            Consistent(Array(a), cs) && Consistent(Array(b), cs) && CanonOf(Array(a), cs) == CanonOf(Array(b), cs)
    decreases ItemsNesting(a) + ItemsNesting(b), 1
  {
    hide Same;
    var x, y := CanonOf(Array(a), cs).items, CanonOf(Array(b), cs).items;
    if |a| == |b| {
      forall i | 0 <= i < |a|
        ensures Same(a[i], b[i], cs) <==> Consistent(a[i], cs) && Consistent(b[i], cs) && x[i] == y[i]
      {
        ItemNests(a, i);
        ItemNests(b, i);
        SameExactly(a[i], b[i], cs);
      }
    }
  }

  lemma {:induction false} MembersSameExactly(a: seq<Member>, b: seq<Member>, cs: bool)
    requires Ints(Object(a)) && Ints(Object(b))
    ensures Covers(a, b, cs) && Covers(b, a, cs) <==>
            && Consistent(Object(a), cs) && Consistent(Object(b), cs)
            && CanonMembers(a, cs) == CanonMembers(b, cs)
    decreases MembersNesting(a) + MembersNesting(b), 3
  {
    hide Same, CanonMembers, CanonOf, Covered, Covers, KeyOf, Agreeing;
    var x, y := CanonMembers(a, cs), CanonMembers(b, cs);
    if Covers(a, b, cs) && Covers(b, a, cs) {
      CoversMakesConsistent(a, b, cs);
      CoversMakesConsistent(b, a, cs);
      assert x == y;
    }
    if Consistent(Object(a), cs) && Consistent(Object(b), cs) && x == y {
      ConsistentCovers(a, b, cs);
      ConsistentCovers(b, a, cs);
    }
  }

  // Members of one key find the same member on the other side.
  lemma {:induction false} CoversMakesConsistent(a: seq<Member>, b: seq<Member>, cs: bool)
    requires Ints(Object(a)) && Ints(Object(b)) && Covers(a, b, cs)
    ensures Consistent(Object(a), cs) && Submap(CanonMembers(a, cs), CanonMembers(b, cs))
    decreases MembersNesting(a) + MembersNesting(b), 2
  {
    hide Same, CanonMembers, CanonOf, KeyOf;
    forall i | 0 <= i < |a|
      ensures Lookup(b, a[i].key, cs) >= 0 && Consistent(a[i].value, cs)
      ensures CanonOf(a[i].value, cs) == CanonOf(b[Lookup(b, a[i].key, cs)].value, cs)
    {
      var j := Lookup(b, a[i].key, cs);
      assert Covered(a, i, b, cs);
      MemberNests(a, i);
      MemberNests(b, j);
      SameExactly(a[i].value, b[j].value, cs);
    }
    forall i, j | 0 <= i < |a| && 0 <= j < |a| && KeyOf(a[i].key, cs) == KeyOf(a[j].key, cs)
      ensures CanonOf(a[i].value, cs) == CanonOf(a[j].value, cs)
    {
      LookupByKey(b, a[i].key, a[j].key, cs);
    }
    assert Agreeing(a, cs);
    forall k | k in CanonMembers(a, cs)
      ensures k in CanonMembers(b, cs) && CanonMembers(b, cs)[k] == CanonMembers(a, cs)[k]
    {
      var i := KeyIndex(a, k, cs);
      MapOfAgreeing(a, i, cs);
      var j := Lookup(b, a[i].key, cs);
      FirstCounts(b, j, cs);
      LookupByKey(b, a[i].key, b[j].key, cs);
    }
  }

  lemma {:induction false} LookupByKey(members: seq<Member>, k: string, l: string, cs: bool)
    requires KeyOf(k, cs) == KeyOf(l, cs)
    ensures Lookup(members, k, cs) == Lookup(members, l, cs)
  {
    hide KeyOf;
    if members != [] {
      LookupByKey(members[1..], k, l, cs);
    }
  }

  lemma {:induction false} ConsistentCovers(a: seq<Member>, b: seq<Member>, cs: bool)
    requires Ints(Object(a)) && Ints(Object(b)) && Consistent(Object(a), cs) && Consistent(Object(b), cs)
    requires CanonMembers(a, cs) == CanonMembers(b, cs)
    ensures Covers(a, b, cs)
    decreases MembersNesting(a) + MembersNesting(b), 2
  {
    hide Same, CanonMembers, CanonOf, KeyOf, Agreeing;
    forall i | 0 <= i < |a|
      ensures Covered(a, i, b, cs)
    {
      MapOfAgreeing(a, i, cs);
      var k := KeyIndex(b, KeyOf(a[i].key, cs), cs);
      var j := Lookup(b, a[i].key, cs);
      MapOfAgreeing(b, j, cs);
      MemberNests(a, i);
      MemberNests(b, j);
      SameExactly(a[i].value, b[j].value, cs);
    }
  }

  ghost predicate Submap(x: map<string, Canon>, y: map<string, Canon>) {
    forall k | k in x :: k in y && y[k] == x[k]
  }

  lemma KeyIndex(members: seq<Member>, k: string, cs: bool) returns (i: nat)
    requires k in CanonMembers(members, cs)
    ensures i < |members| && KeyOf(members[i].key, cs) == k
  {
    hide CanonMembers, KeyOf;
    CanonKeys(members, cs);
    assert exists i | 0 <= i < |members| :: KeyOf(members[i].key, cs) == k;
    i :| 0 <= i < |members| && KeyOf(members[i].key, cs) == k;
  }

  // ---- Consequences ----

  // A value equals its own copy exactly when it is consistent.
  lemma SameAsCopy(v: Json, cs: bool)
    requires Ints(v)
    ensures Same(v, v, cs) <==> Consistent(v, cs)
  {
    hide Same, Consistent, CanonOf;
    SameExactly(v, v, cs);
  }

  // Symmetry and transitivity need nothing else.
  lemma SameIsPartialEquivalence(a: Json, b: Json, c: Json, cs: bool)
    requires Ints(a) && Ints(b) && Ints(c)
    ensures Same(a, b, cs) <==> Same(b, a, cs)
    ensures Same(a, b, cs) && Same(b, c, cs) ==> Same(a, c, cs)
  {
    hide Same, Consistent, CanonOf;
    SameExactly(a, b, cs);
    SameExactly(b, a, cs);
    SameExactly(b, c, cs);
    SameExactly(a, c, cs);
  }

  // In every object the keys differ pairwise.
  ghost predicate Proper(v: Json, cs: bool) {
    match v
    case Array(items) => forall i | 0 <= i < |items| :: Proper(items[i], cs)
    case Object(members) =>
      && DistinctKeys(members, cs)
      && forall i | 0 <= i < |members| :: Proper(members[i].value, cs)
    case _ => true
  }

  ghost predicate DistinctKeys(members: seq<Member>, cs: bool) {
    forall i, j | 0 <= i < j < |members| :: KeyOf(members[i].key, cs) != KeyOf(members[j].key, cs)
  }

  lemma {:induction false} ProperIsConsistent(v: Json, cs: bool)
    requires Proper(v, cs)
    ensures Consistent(v, cs)
  {
    hide KeyOf, CanonOf;
    match v
    case Array(items) =>
      forall i | 0 <= i < |items|
        ensures Consistent(items[i], cs)
      {
        ProperIsConsistent(items[i], cs);
      }
    case Object(members) =>
      forall i | 0 <= i < |members|
        ensures Consistent(members[i].value, cs)
      {
        ProperIsConsistent(members[i].value, cs);
      }
      assert forall i, j |
          0 <= i < |members| && 0 <= j < |members| && KeyOf(members[i].key, cs) == KeyOf(members[j].key, cs) ::
               i == j;
    case _ =>
  }

  // With pairwise distinct keys it is equality of the canonical values, an equivalence.
  lemma SameIsCanonEquality(a: Json, b: Json, cs: bool)
    requires Ints(a) && Ints(b) && Proper(a, cs) && Proper(b, cs)
    ensures Same(a, b, cs) <==> CanonOf(a, cs) == CanonOf(b, cs)
  {
    hide Same, Consistent, CanonOf, Proper;
    SameExactly(a, b, cs);
    ProperIsConsistent(a, cs);
    ProperIsConsistent(b, cs);
  }

  lemma SameIsEquivalence(a: Json, b: Json, c: Json, cs: bool)
    requires Ints(a) && Ints(b) && Ints(c) && Proper(a, cs)
    ensures Same(a, a, cs)
    ensures Same(a, b, cs) <==> Same(b, a, cs)
    ensures Same(a, b, cs) && Same(b, c, cs) ==> Same(a, c, cs)
  {
    hide Same, Consistent, CanonOf, Proper;
    ProperIsConsistent(a, cs);
    SameAsCopy(a, cs);
    SameIsPartialEquivalence(a, b, c, cs);
  }

  // A permutation of the members compares equal exactly when the object is consistent.
  lemma OrderDoesNotMatter(a: seq<Member>, b: seq<Member>, cs: bool)
    requires Ints(Object(a)) && multiset(a) == multiset(b)
    ensures Ints(Object(b)) && (Same(Object(a), Object(b), cs) <==> Consistent(Object(a), cs))
  {
    hide Same, CanonOf, CanonMembers, Agreeing, Consistent;
    assert forall m :: m in a <==> m in b by {
      assert forall m :: (m in a <==> m in multiset(a)) && (m in b <==> m in multiset(b));
    }
    SameInts(a, b);
    SameExactly(Object(a), Object(b), cs);
    if Consistent(Object(a), cs) {
      SameMembersConsistent(a, b, cs);
      SameMembersSubmap(a, b, cs);
      SameMembersSubmap(b, a, cs);
      assert CanonMembers(a, cs) == CanonMembers(b, cs);
      ObjectCanon(a, cs);
      ObjectCanon(b, cs);
    }
  }

  lemma ObjectCanon(members: seq<Member>, cs: bool)
    ensures CanonOf(Object(members), cs) == CObject(CanonMembers(members, cs))
  {
  }

  lemma SameInts(a: seq<Member>, b: seq<Member>)
    requires Ints(Object(a)) && forall m | m in b :: m in a
    ensures Ints(Object(b))
  {
    forall i | 0 <= i < |b|
      ensures Ints(b[i].value)
    {
      assert b[i] in a;
    }
  }

  lemma SameMembersConsistent(a: seq<Member>, b: seq<Member>, cs: bool)
    requires Consistent(Object(a), cs) && forall m | m in b :: m in a
    ensures Consistent(Object(b), cs) && Agreeing(a, cs) && Agreeing(b, cs)
  {
    hide KeyOf, CanonOf;
    assert forall i | 0 <= i < |b| :: b[i] in a;
  }

  lemma SameMembersSubmap(a: seq<Member>, b: seq<Member>, cs: bool)
    requires Agreeing(a, cs) && Agreeing(b, cs) && forall m | m in a :: m in b
    ensures Submap(CanonMembers(a, cs), CanonMembers(b, cs))
  {
    hide CanonOf, CanonMembers, KeyOf, Agreeing;
    forall k | k in CanonMembers(a, cs)
      ensures k in CanonMembers(b, cs) && CanonMembers(b, cs)[k] == CanonMembers(a, cs)[k]
    {
      var i := KeyIndex(a, k, cs);
      assert a[i] in b;
      var j :| 0 <= j < |b| && b[j] == a[i];
      MapOfAgreeing(a, i, cs);
      MapOfAgreeing(b, j, cs);
    }
  }

  // A repeated key with different values: only the first is ever looked up.
  lemma RepeatedKeysDiffer(cs: bool)
    ensures var v := Object([Member("a", True), Member("a", False)]);
            !Consistent(v, cs) && !Same(v, v, cs)
  {
    var ms := [Member("a", True), Member("a", False)];
    assert KeyOf(ms[0].key, cs) == KeyOf(ms[1].key, cs);
    assert CanonOf(ms[0].value, cs) != CanonOf(ms[1].value, cs);
    assert !Agreeing(ms, cs);
    SameAsCopy(Object(ms), cs);
  }
}
