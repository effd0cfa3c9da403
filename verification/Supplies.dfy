/**
 The supply counters: each update adds the deltas of a JSON message and clamps at zero.
 */
module Supplies {
  import opened CText
  import opened StringLiteral
  import opened Numbers
  import opened JsonValue
  import opened Nodes
  import opened Lists
  import opened CompareSpec
  import opened Comparison

  datatype Item = Meat | Vegetables | Fruits | Water | Antibiotics | Analgesics | Bandages
  {
    function Section(): string {
      if Meat? || Vegetables? || Fruits? || Water? then "food" else "medicine"
    }

    function Name(): string {
      match this
      case Meat => "meat"
      case Vegetables => "vegetables"
      case Fruits => "fruits"
      case Water => "water"
      case Antibiotics => "antibiotics"
      case Analgesics => "analgesics"
      case Bandages => "bandages"
    }
  }

  class FoodSupply {
    var meat: int
    var vegetables: int
    var fruits: int
    var water: int
  }

  class MedicineSupply {
    var antibiotics: int
    var analgesics: int
    var bandages: int
  }

  datatype Counters = Counters(meat: int, vegetables: int, fruits: int, water: int,
                               antibiotics: int, analgesics: int, bandages: int)
  {
    function Of(item: Item): int {
      match item
      case Meat => meat
      case Vegetables => vegetables
      case Fruits => fruits
      case Water => water
      case Antibiotics => antibiotics
      case Analgesics => analgesics
      case Bandages => bandages
    }
  }

  function Levels(food: FoodSupply, medicine: MedicineSupply): Counters
    reads food, medicine
  {
    Counters(food.meat, food.vegetables, food.fruits, food.water,
             medicine.antibiotics, medicine.analgesics, medicine.bandages)
  }

  function Stock(food: FoodSupply, medicine: MedicineSupply, item: Item): int
    reads food, medicine
  {
    Levels(food, medicine).Of(item)
  }

  // ---- One update ----

  // The counter after adding `delta`.
  function Clamped(stock: int, delta: int): int {
    if stock + delta < 0 then 0 else stock + delta
  }

  // The child of that name, ignoring case.
  ghost function Child(sh: Shape, name: string): seq<Shape> {
    var i := FindKey(sh.kids, name, false);
    if i < 0 then [] else [sh.kids[i]]
  }

  // The number at `section.name`, truncated to an int; nothing at all counts as zero.
  ghost function Delta(sh: Shape, item: Item): int {
    var section := Child(sh, item.Section());
    if section == [] || !section[0].data.DObject? then 0 else Amount(section[0], item.Name())
  }

  ghost function Amount(section: Shape, name: string): int {
    var entry := Child(section, name);
    if entry == [] || !entry[0].data.DNumber? then 0 else Saturate(entry[0].data.num)
  }

  // Every node has one of the seven types.
  ghost predicate Typed(sh: Shape) {
    !sh.data.DInvalid? && forall i | 0 <= i < |sh.kids| :: Typed(sh.kids[i])
  }

  lemma {:induction false} TypedIsValued(sh: Shape)
    requires Typed(sh)
    ensures Valued(sh) && ValuedAll(sh.kids)
    decreases sh
  {
    forall i | 0 <= i < |sh.kids|
      ensures Valued(sh.kids[i])
    {
      TypedIsValued(sh.kids[i]);
    }
  }

  // ---- What a message says ----

  // The members of the message: its children with their keys.
  ghost function Message(sh: Shape): seq<Member>
    requires Typed(sh)
  {
    TypedIsValued(sh);
    MembersOf(sh.kids)
  }

  // The value of the first member with that key, up to the case of letters.
  ghost function ValueAt(members: seq<Member>, key: string): Option<Json> {
    if exists j | 0 <= j < |members| :: FirstWith(members, j, key, false) then
      var j :| 0 <= j < |members| && FirstWith(members, j, key, false);
      Some(members[j].value)
    else None
  }

  // The number `{section: {name: number}}`, truncated to an int; zero if anything is missing or
  // has another type.
  ghost function AmountIn(members: seq<Member>, section: string, name: string): int {
    match ValueAt(members, section)
    case Some(Object(entries)) => (match ValueAt(entries, name)
                                   case Some(Number(num)) => Saturate(num)
                                   case _ => 0)
    case _ => 0
  }

  lemma OnlyOneIsFirst(members: seq<Member>, j: nat, k: nat, key: string)
    requires j < |members| && k < |members| && FirstWith(members, j, key, false) && FirstWith(members, k, key, false)
    ensures j == k
  {
    hide KeysAgree;
  }

  lemma ValueAtIs(members: seq<Member>, j: nat, key: string)
    requires j < |members| && FirstWith(members, j, key, false)
    ensures ValueAt(members, key) == Some(members[j].value)
  {
    hide FirstWith;
    var k :| 0 <= k < |members| && FirstWith(members, k, key, false) && ValueAt(members, key) == Some(members[k].value);
    OnlyOneIsFirst(members, j, k, key);
  }

  // An int under its name counts for itself.
  lemma IntAmount(members: seq<Member>, j: nat, k: nat, section: string, name: string, i: int)
    requires j < |members| && FirstWith(members, j, section, false) && members[j].value.Object?
    requires var entries := members[j].value.members;
             k < |entries| && FirstWith(entries, k, name, false) && entries[k].value == Number(i as real)
    requires INT_MIN <= i <= INT_MAX
    ensures AmountIn(members, section, name) == i
  {
    hide FirstWith, ValueAt;
    ValueAtIs(members, j, section);
    ValueAtIs(members[j].value.members, k, name);
  }

  // Without a section of that name, an object, and a number of that name in it, nothing counts.
  lemma NoAmount(members: seq<Member>, section: string, name: string)
    requires forall j | 0 <= j < |members| && FirstWith(members, j, section, false) && members[j].value.Object? ::
               var entries := members[j].value.members;
               forall k | 0 <= k < |entries| && FirstWith(entries, k, name, false) :: !entries[k].value.Number?
    ensures AmountIn(members, section, name) == 0
  {
    hide FirstWith;
  }

  // The search through the children is the search through the members: a child without a key
  // counts as one with the empty key.
  lemma FoundIsFirst(sh: Shape, i: nat, name: string)
    requires Wired(sh) && Typed(sh) && i < |sh.kids| && name != ""
    ensures IsFound(sh.kids, i, name, false) <==> FirstWith(Message(sh), i, name, false)
  {
    hide Wired, KeysAgree, Typed, Labelled, Blocks, BlocksOf;
    forall k | 0 <= k < |sh.kids|
      ensures sh.kids[k].key == null ==> !KeysAgree(sh.kids[k].name, name, false)
    {
      KeylessDiffers(sh, k, name);
    }
    var members := Message(sh);
    assert forall k | 0 <= k < |sh.kids| :: members[k].key == sh.kids[k].name;
  }

  lemma KeylessDiffers(sh: Shape, k: nat, name: string)
    requires Wired(sh) && k < |sh.kids| && name != ""
    ensures sh.kids[k].key == null ==> !KeysAgree(sh.kids[k].name, name, false)
  {
    hide Wired;
    ChildAt(sh, k);
  }

  lemma ChildIsValue(sh: Shape, name: string)
    requires Wired(sh) && Typed(sh) && name != ""
    ensures Child(sh, name) == [] <==> ValueAt(Message(sh), name).None?
    ensures Child(sh, name) != [] ==>
              var kid := Child(sh, name)[0];
              Wired(kid) && Typed(kid) && Valued(kid) && ValueAt(Message(sh), name) == Some(ValueOf(kid))
  {
    hide Wired, FindKey, IsFound, FirstWith, ValueOf, Labelled, Blocks, BlocksOf;
    var members, i := Message(sh), FindKey(sh.kids, name, false);
    NothingFoundExactly(sh.kids, name, false);
    forall k | 0 <= k < |members|
      ensures IsFound(sh.kids, k, name, false) <==> FirstWith(members, k, name, false)
    {
      FoundIsFirst(sh, k, name);
    }
    if i >= 0 {
      FindKeyExactly(sh.kids, i, name, false);
      ValueAtIs(members, i, name);
      ChildAt(sh, i);
      TypedIsValued(sh.kids[i]);
    }
  }

  // What a message adds to a counter is the amount it says.
  lemma DeltaIsAmount(sh: Shape, item: Item)
    requires Wired(sh) && Typed(sh)
    ensures Delta(sh, item) == AmountIn(Message(sh), item.Section(), item.Name())
  {
    hide Wired, Typed, Child, ValueAt, Message;
    ChildIsValue(sh, item.Section());
    var section := Child(sh, item.Section());
    if section != [] && section[0].data.DObject? {
      ChildIsValue(section[0], item.Name());
      ObjectMembers(section[0]);
    }
  }

  lemma ObjectMembers(sh: Shape)
    requires Typed(sh) && Valued(sh) && sh.data.DObject?
    ensures ValueOf(sh) == Object(Message(sh))
  {
  }

  // A C string constant.
  method Literal(s: string) returns (a: array<char>)
    requires NUL !in s
    ensures fresh(a) && Spells(a, s)
  {
    a := new char[|s| + 1];
    forall i | 0 <= i < |s| {
      a[i] := s[i];
    }
    a[|s|] := NUL;
    assert forall i | 0 <= i < |s| :: s[i] in s;
  }

  // cJSON_GetObjectItem.
  method GetItem(owner: Node?, name: string, ghost sh: Shape) returns (found: Node?)
    requires NUL !in name && (owner != null ==> Wired(sh) && Typed(sh) && sh.node == owner)
    ensures owner == null ==> found == null
    ensures owner != null ==> Wired(sh) && (found == null <==> Child(sh, name) == [])
    ensures found != null ==>
              var entry := Child(sh, name)[0];
              Wired(entry) && Labelled(entry) && Typed(entry) && entry.node == found
  {
    hide Wired, Blocks, FindKey, Labelled;
    if owner != null {
      BlocksAllocated(sh);
    }
    var key := Literal(name);
    if owner != null {
      BlocksAllocated(sh);
    }
    found := GetObjectItem(owner, key, false, sh, name);
    if found != null {
      ChildAt(sh, FindKey(sh.kids, name, false));
    }
  }

  // The amount of one entry, if there is one.
  method GetAmount(section: Node, name: string, ghost sh: Shape) returns (there: bool, amount: int)
    requires NUL !in name && Wired(sh) && Typed(sh) && sh.node == section
    ensures Wired(sh)
    ensures there <==> Child(sh, name) != [] && Child(sh, name)[0].data.DNumber?
    ensures there ==> amount == Amount(sh, name)
    ensures !there ==> Amount(sh, name) == 0
  {
    hide Wired, FindKey, Child;
    var entry := GetItem(section, name, sh);
    there := entry != null && entry.kind == KNumber;
    amount := if there then entry.valueint else 0;
  }

  // Adding up stays within an int.
  ghost predicate Fits(food: FoodSupply, medicine: MedicineSupply, sh: Shape)
    reads food, medicine
  {
    forall item: Item :: 0 <= Stock(food, medicine, item) && Stock(food, medicine, item) + Delta(sh, item) <= INT_MAX
  }

  // The counters live outside the message.
  lemma {:induction false} CountersApart(food: FoodSupply, medicine: MedicineSupply, sh: Shape)
    ensures food !in Blocks(sh) && medicine !in Blocks(sh)
    decreases sh
  {
    forall i | 0 <= i < |sh.kids|
      ensures food !in Blocks(sh.kids[i]) && medicine !in Blocks(sh.kids[i])
    {
      CountersApart(food, medicine, sh.kids[i]);
    }
  }

  // The section "food".
  method UpdateFood(food: FoodSupply, section: Node, ghost sh: Shape)
    requires Wired(sh) && Typed(sh) && sh.node == section && food !in Blocks(sh)
    requires food.meat >= 0 && food.vegetables >= 0 && food.fruits >= 0 && food.water >= 0
    modifies food
    ensures Wired(sh)
    ensures food.fruits == Clamped(old(food.fruits), Amount(sh, "fruits"))
    ensures food.vegetables == Clamped(old(food.vegetables), Amount(sh, "vegetables"))
    ensures food.meat == Clamped(old(food.meat), Amount(sh, "meat"))
    ensures food.water == Clamped(old(food.water), Amount(sh, "water"))
  {
    hide Wired, Child, Amount, Blocks;
    BlocksAllocated(sh);
    var there, amount := GetAmount(section, "fruits", sh);
    if there {
      food.fruits := food.fruits + amount;
      if food.fruits < 0 {
        food.fruits := 0;
      }
    }
    there, amount := GetAmount(section, "vegetables", sh);
    if there {
      food.vegetables := food.vegetables + amount;
      if food.vegetables < 0 {
        food.vegetables := 0;
      }
    }
    there, amount := GetAmount(section, "meat", sh);
    if there {
      food.meat := food.meat + amount;
      if food.meat < 0 {
        food.meat := 0;
      }
    }
    there, amount := GetAmount(section, "water", sh);
    if there {
      food.water := food.water + amount;
      if food.water < 0 {
        food.water := 0;
      }
    }
  }

  // The section "medicine".
  method UpdateMedicine(medicine: MedicineSupply, section: Node, ghost sh: Shape)
    requires Wired(sh) && Typed(sh) && sh.node == section && medicine !in Blocks(sh)
    requires medicine.antibiotics >= 0 && medicine.analgesics >= 0 && medicine.bandages >= 0
    modifies medicine
    ensures Wired(sh)
    ensures medicine.antibiotics == Clamped(old(medicine.antibiotics), Amount(sh, "antibiotics"))
    ensures medicine.analgesics == Clamped(old(medicine.analgesics), Amount(sh, "analgesics"))
    ensures medicine.bandages == Clamped(old(medicine.bandages), Amount(sh, "bandages"))
  {
    hide Wired, Child, Amount, Blocks;
    BlocksAllocated(sh);
    var there, amount := GetAmount(section, "antibiotics", sh);
    if there {
      medicine.antibiotics := medicine.antibiotics + amount;
      if medicine.antibiotics < 0 {
        medicine.antibiotics := 0;
      }
    }
    there, amount := GetAmount(section, "analgesics", sh);
    if there {
      medicine.analgesics := medicine.analgesics + amount;
      if medicine.analgesics < 0 {
        medicine.analgesics := 0;
      }
    }
    there, amount := GetAmount(section, "bandages", sh);
    if there {
      medicine.bandages := medicine.bandages + amount;
      if medicine.bandages < 0 {
        medicine.bandages := 0;
      }
    }
  }

  lemma Nonnegative(food: FoodSupply, medicine: MedicineSupply, sh: Shape)
    requires Fits(food, medicine, sh)
    ensures food.meat >= 0 && food.vegetables >= 0 && food.fruits >= 0 && food.water >= 0
    ensures medicine.antibiotics >= 0 && medicine.analgesics >= 0 && medicine.bandages >= 0
  {
    assert Stock(food, medicine, Meat) >= 0 && Stock(food, medicine, Vegetables) >= 0;
    assert Stock(food, medicine, Fruits) >= 0 && Stock(food, medicine, Water) >= 0;
    assert Stock(food, medicine, Antibiotics) >= 0 && Stock(food, medicine, Analgesics) >= 0;
    assert Stock(food, medicine, Bandages) >= 0;
  }

  lemma DeltasAreAmounts(sh: Shape)
    requires Wired(sh) && Typed(sh)
    ensures var msg := Message(sh);
            && Delta(sh, Meat) == AmountIn(msg, "food", "meat")
            && Delta(sh, Vegetables) == AmountIn(msg, "food", "vegetables")
            && Delta(sh, Fruits) == AmountIn(msg, "food", "fruits")
            && Delta(sh, Water) == AmountIn(msg, "food", "water")
            && Delta(sh, Antibiotics) == AmountIn(msg, "medicine", "antibiotics")
            && Delta(sh, Analgesics) == AmountIn(msg, "medicine", "analgesics")
            && Delta(sh, Bandages) == AmountIn(msg, "medicine", "bandages")
  {
    hide Wired, Delta, AmountIn, Message;
    forall item: Item
      ensures Delta(sh, item) == AmountIn(Message(sh), item.Section(), item.Name())
    {
      DeltaIsAmount(sh, item);
    }
    assert Meat.Section() == "food" && Antibiotics.Section() == "medicine";
  }

  // Each counter gets the amount under its own name.
  ghost function AfterMessage(was: Counters, msg: seq<Member>): Counters {
    Counters(Clamped(was.meat, AmountIn(msg, "food", "meat")),
             Clamped(was.vegetables, AmountIn(msg, "food", "vegetables")),
             Clamped(was.fruits, AmountIn(msg, "food", "fruits")),
             Clamped(was.water, AmountIn(msg, "food", "water")),
             Clamped(was.antibiotics, AmountIn(msg, "medicine", "antibiotics")),
             Clamped(was.analgesics, AmountIn(msg, "medicine", "analgesics")),
             Clamped(was.bandages, AmountIn(msg, "medicine", "bandages")))
  }

  lemma EachGetsItsOwn(was: Counters, now: Counters, sh: Shape)
    requires Wired(sh) && Typed(sh)
    requires forall item: Item :: now.Of(item) == Clamped(was.Of(item), Delta(sh, item))
    ensures now == AfterMessage(was, Message(sh))
  {
    hide Wired, Delta, AmountIn, Message, Clamped;
    DeltasAreAmounts(sh);
    assert now.Of(Meat) == now.meat && now.Of(Vegetables) == now.vegetables && now.Of(Fruits) == now.fruits;
    assert now.Of(Water) == now.water && now.Of(Antibiotics) == now.antibiotics;
    assert now.Of(Analgesics) == now.analgesics && now.Of(Bandages) == now.bandages;
  }

  // update_supplies_from_json
  method UpdateSuppliesFromJson(food: FoodSupply, medicine: MedicineSupply, json: Node?, ghost sh: Shape)
    requires json != null ==> Wired(sh) && Typed(sh) && sh.node == json && Fits(food, medicine, sh)
    modifies food, medicine
    ensures json != null ==> Wired(sh)
    ensures forall item: Item ::
              Stock(food, medicine, item)
              == if json == null then old(Stock(food, medicine, item))
                 else Clamped(old(Stock(food, medicine, item)), Delta(sh, item))
    ensures json != null ==> forall item: Item :: 0 <= Stock(food, medicine, item) <= INT_MAX
    ensures json != null ==> Levels(food, medicine) == AfterMessage(old(Levels(food, medicine)), Message(sh))
  {
    hide Wired, Child, Amount, Blocks, AfterMessage, Message;
    ghost var was := Levels(food, medicine);
    if json != null {
      CountersApart(food, medicine, sh);
      BlocksAllocated(sh);
      Nonnegative(food, medicine, sh);
    }
    var foodObject := GetItem(json, "food", sh);
    if foodObject != null && foodObject.kind == KObject {
      CountersApart(food, medicine, Child(sh, "food")[0]);
      UpdateFood(food, foodObject, Child(sh, "food")[0]);
    }
    var medicineObject := GetItem(json, "medicine", sh);
    if medicineObject != null && medicineObject.kind == KObject {
      CountersApart(food, medicine, Child(sh, "medicine")[0]);
      UpdateMedicine(medicine, medicineObject, Child(sh, "medicine")[0]);
    }
    if json != null {
      EachGetsItsOwn(was, Levels(food, medicine), sh);
    }
  }

  // ---- Whole runs ----

  // A counter after a sequence of deltas, from zero.
  function Run(deltas: seq<int>): int {
    if deltas == [] then 0 else Clamped(Run(deltas[..|deltas| - 1]), deltas[|deltas| - 1])
  }

  function Sum(deltas: seq<int>): int {
    if deltas == [] then 0 else Sum(deltas[..|deltas| - 1]) + deltas[|deltas| - 1]
  }

  // The least prefix sum, the empty prefix included.
  function Least(deltas: seq<int>): int {
    if deltas == [] then 0
    else if Sum(deltas) < Least(deltas[..|deltas| - 1]) then Sum(deltas) else Least(deltas[..|deltas| - 1])
  }

  function Receipts(deltas: seq<int>): nat {
    if deltas == [] then 0
    else Receipts(deltas[..|deltas| - 1]) + if deltas[|deltas| - 1] > 0 then deltas[|deltas| - 1] else 0
  }

  lemma {:induction false} LeastIsMinimum(deltas: seq<int>)
    ensures forall k | 0 <= k <= |deltas| :: Least(deltas) <= Sum(deltas[..k])
    ensures exists k | 0 <= k <= |deltas| :: Least(deltas) == Sum(deltas[..k])
  {
    assert deltas[..|deltas|] == deltas;
    if deltas != [] {
      var front := deltas[..|deltas| - 1];
      LeastIsMinimum(front);
      assert forall k | 0 <= k <= |front| :: front[..k] == deltas[..k];
      var k :| 0 <= k <= |front| && Least(front) == Sum(front[..k]);
      assert front[..k] == deltas[..k];
      if Sum(deltas) < Least(front) {
        assert Least(deltas) == Sum(deltas[..|deltas|]);
      } else {
        assert Least(deltas) == Sum(deltas[..k]);
      }
    } else {
      assert Least(deltas) == Sum(deltas[..0]);
    }
  }

  // The clamped run is the plain sum above its own low-water mark.
  lemma {:induction false} ClosedForm(deltas: seq<int>)
    ensures Run(deltas) == Sum(deltas) - Least(deltas)
  {
    if deltas != [] {
      ClosedForm(deltas[..|deltas| - 1]);
    }
  }

  lemma {:induction false} RunIsBounded(deltas: seq<int>)
    ensures 0 <= Run(deltas) <= Receipts(deltas)
  {
    if deltas != [] {
      RunIsBounded(deltas[..|deltas| - 1]);
    }
  }

  // The addition cannot underflow an int.
  lemma NoUnderflow(deltas: seq<int>, delta: int)
    requires INT_MIN <= delta
    ensures INT_MIN <= Run(deltas) + delta
  {
    RunIsBounded(deltas);
  }

  ghost function Deltas(messages: seq<Shape>, item: Item): (deltas: seq<int>)
    ensures |deltas| == |messages|
  {
    seq(|messages|, i requires 0 <= i < |messages| => Delta(messages[i], item))
  }

  // The amounts the messages say for one name.
  ghost function Amounts(messages: seq<Shape>, section: string, name: string): (amounts: seq<int>)
    requires forall i | 0 <= i < |messages| :: Typed(messages[i])
    ensures |amounts| == |messages|
  {
    seq(|messages|, i requires 0 <= i < |messages| => AmountIn(Message(messages[i]), section, name))
  }

  // Their sum above the least of its prefix sums.
  ghost function Level(messages: seq<Shape>, section: string, name: string): int
    requires forall i | 0 <= i < |messages| :: Typed(messages[i])
  {
    var amounts := Amounts(messages, section, name);
    Sum(amounts) - Least(amounts)
  }

  lemma RunIsLevel(messages: seq<Shape>, item: Item)
    requires forall i | 0 <= i < |messages| :: Wired(messages[i]) && Typed(messages[i])
    ensures Run(Deltas(messages, item)) == Level(messages, item.Section(), item.Name())
  {
    hide Wired, Typed, Delta, AmountIn, Message, Run;
    var deltas, amounts := Deltas(messages, item), Amounts(messages, item.Section(), item.Name());
    forall i | 0 <= i < |messages|
      ensures deltas[i] == amounts[i]
    {
      DeltaIsAmount(messages[i], item);
    }
    assert deltas == amounts;
    ClosedForm(deltas);
  }

  ghost function Totals(messages: seq<Shape>): Counters
    requires forall i | 0 <= i < |messages| :: Typed(messages[i])
  {
    Counters(Level(messages, "food", "meat"), Level(messages, "food", "vegetables"),
             Level(messages, "food", "fruits"), Level(messages, "food", "water"),
             Level(messages, "medicine", "antibiotics"), Level(messages, "medicine", "analgesics"),
             Level(messages, "medicine", "bandages"))
  }

  lemma RunsAreTotals(food: FoodSupply, medicine: MedicineSupply, messages: seq<Shape>)
    requires forall i | 0 <= i < |messages| :: Wired(messages[i]) && Typed(messages[i])
    requires forall item: Item :: Stock(food, medicine, item) == Run(Deltas(messages, item))
    ensures Levels(food, medicine) == Totals(messages)
  {
    hide Wired, Typed, Run, Deltas, Level;
    forall item: Item
      ensures Stock(food, medicine, item) == Level(messages, item.Section(), item.Name())
    {
      RunIsLevel(messages, item);
    }
    assert Stock(food, medicine, Meat) == food.meat && Stock(food, medicine, Vegetables) == food.vegetables;
    assert Stock(food, medicine, Fruits) == food.fruits && Stock(food, medicine, Water) == food.water;
    assert Stock(food, medicine, Antibiotics) == medicine.antibiotics;
    assert Stock(food, medicine, Analgesics) == medicine.analgesics;
    assert Stock(food, medicine, Bandages) == medicine.bandages;
  }

  ghost predicate NoOverflow(deltas: seq<int>) {
    forall k | 0 <= k < |deltas| :: Run(deltas[..k]) + deltas[k] <= INT_MAX
  }

  // init_shared_memory_supplies, then one update after the other.
  method ServeUpdates(food: FoodSupply, medicine: MedicineSupply, messages: seq<Node>, ghost shapes: seq<Shape>)
    requires |shapes| == |messages|
    requires forall i | 0 <= i < |shapes| :: Wired(shapes[i]) && Typed(shapes[i]) && shapes[i].node == messages[i]
    requires forall item: Item :: NoOverflow(Deltas(shapes, item))
    modifies food, medicine
    ensures forall item: Item :: Stock(food, medicine, item) == Run(Deltas(shapes, item))
    ensures Levels(food, medicine) == Totals(shapes)
  {
    hide Wired, Delta, Blocks, Typed, Run, Deltas, NoOverflow, Clamped, Totals;
    NothingRun();
    forall i | 0 <= i < |shapes|
      ensures food !in Blocks(shapes[i]) && medicine !in Blocks(shapes[i])
      ensures forall o | o in Blocks(shapes[i]) :: allocated(o)
    {
      CountersApart(food, medicine, shapes[i]);
      BlocksAllocated(shapes[i]);
    }
    food.meat, food.vegetables, food.fruits, food.water := 0, 0, 0, 0;
    medicine.antibiotics, medicine.analgesics, medicine.bandages := 0, 0, 0;
    var i := 0;
    assert forall item: Item :: Deltas(shapes, item)[..0] == [];
    while i < |messages|
      invariant i <= |messages|
      invariant forall k | i <= k < |shapes| :: Wired(shapes[k])
      invariant forall item: Item :: Stock(food, medicine, item) == Run(Deltas(shapes, item)[..i])
    {
      forall item: Item
        ensures 0 <= Stock(food, medicine, item) && Stock(food, medicine, item) + Delta(shapes[i], item) <= INT_MAX
        ensures Run(Deltas(shapes, item)[..i + 1]) == Clamped(Run(Deltas(shapes, item)[..i]), Delta(shapes[i], item))
      {
        NextDelta(shapes, i, item);
      }
      UpdateSuppliesFromJson(food, medicine, messages[i], shapes[i]);
      i := i + 1;
    }
    assert forall item: Item :: Deltas(shapes, item)[..i] == Deltas(shapes, item);
    RunsAreTotals(food, medicine, shapes);
  }

  lemma NothingRun()
    ensures Run([]) == 0
  {
  }

  lemma NextDelta(shapes: seq<Shape>, i: nat, item: Item)
    requires i < |shapes| && NoOverflow(Deltas(shapes, item))
    ensures var d := Deltas(shapes, item);
            && 0 <= Run(d[..i]) && Run(d[..i]) + Delta(shapes[i], item) <= INT_MAX
            && Run(d[..i + 1]) == Clamped(Run(d[..i]), Delta(shapes[i], item))
  {
    hide Delta;
    var d := Deltas(shapes, item);
    RunIsBounded(d[..i]);
    assert d[..i + 1][..i] == d[..i] && d[..i + 1][i] == d[i] == Delta(shapes[i], item);
  }
}
