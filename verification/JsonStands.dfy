/**
 What decoding leaves in the Lua heap, read from the heap; which fields of any table encoding
 takes; and what it makes of values that are no tables.
 */
module JsonStands {
  import opened Bytes
  import opened Json
  import opened JsonRoundTrip
  import opened JsonPlain

  // ---------------------------------------------------------------- the decoded value

  /** The last member with its key, which is the one that stays. */
  predicate IsLast(ms: seq<Member>, j: nat)
    requires j < |ms|
  {
    forall i :: j < i < |ms| ==> ms[i].key != ms[j].key
  }

  /** A number is an integer of 64 bits. */
  predicate WholeNumber(d: real, i: int) {
    i as real == d && -9223372036854775808 <= i <= 9223372036854775807
  }

  /** A Lua value stands for a tree: a number that is whole and fits an integer is one; a null
      is the mark or nothing at all; an array has its items at 1, 2, and so on, and the tag of
      one; an object has the last value of each key, and when it is to be preserved, its tag
      and all keys in order. */
  ghost predicate Stands(v: Json, x: Value, preserve: bool, heap: Heap)
    decreases v
  {
    match v
    case Null => x == if preserve then Opaque else Nil
    case Bool(b) => x == Boolean(b)
    case Str(s) => x == String(s)
    case Number(d) =>
      && (forall i :: WholeNumber(d, i) ==> x == Integer(i))
      && ((forall i :: !WholeNumber(d, i)) ==> x == Float(d))
    case Arr(items) =>
      && x.Ref? && x.address < |heap|
      && var t := heap[x.address];
         && t.tag == ArrayTag && t.order == None
         && (forall k :: k in t.fields ==> k.IntKey? && 1 <= k.i <= |items|)
         && forall i :: 0 <= i < |items| ==> Stands(items[i], Get(t, IntKey(i + 1)), preserve, heap)
    case Obj(ms) =>
      && x.Ref? && x.address < |heap|
      && var t := heap[x.address];
         && (if preserve then t.tag == ObjectTag && t.order.Some? && KeysOf(t.order.value, ms)
             else t.tag == Untagged && t.order == None)
         && (forall k :: k in t.fields ==> k.StrKey? && 0 !in k.s && Has(ms, k.s))
         && forall j :: 0 <= j < |ms| && IsLast(ms, j) ==>
                          Stands(ms[j].value, Get(t, StrKey(ms[j].key)), preserve, heap)
  }

  predicate KeysOf(order: seq<Option<Text>>, ms: seq<Member>) {
    |order| == |ms| && forall j :: 0 <= j < |ms| ==> order[j] == Some(ms[j].key)
  }

  lemma {:induction false} StandsLater(v: Json, x: Value, preserve: bool, heap: Heap, later: Heap)
    requires Stands(v, x, preserve, heap) && heap <= later
    ensures Stands(v, x, preserve, later)
    decreases v
  {
    match v {
      case Arr(items) =>
        var t := heap[x.address];
        forall i | 0 <= i < |items|
          ensures Stands(items[i], Get(t, IntKey(i + 1)), preserve, later)
        {
          StandsLater(items[i], Get(t, IntKey(i + 1)), preserve, heap, later);
        }
      case Obj(ms) =>
        var t := heap[x.address];
        forall j | 0 <= j < |ms| && IsLast(ms, j)
          ensures Stands(ms[j].value, Get(t, StrKey(ms[j].key)), preserve, later)
        {
          StandsLater(ms[j].value, Get(t, StrKey(ms[j].key)), preserve, heap, later);
        }
      case _ =>
    }
  }

  lemma {:induction false} ElementsAre(values: seq<Value>, n: nat)
    requires n <= |values|
    ensures forall k :: k in Elements(values, n) ==> k.IntKey? && 1 <= k.i <= n
    ensures forall i :: 0 <= i < n ==>
              if values[i] == Nil then IntKey(i + 1) !in Elements(values, n)
              else IntKey(i + 1) in Elements(values, n) && Elements(values, n)[IntKey(i + 1)] == values[i]
  {
    if n > 0 {
      ElementsAre(values, n - 1);
    }
  }

  lemma {:induction false} FieldsNamed(ms: seq<Member>, values: seq<Value>, n: nat)
    requires n <= |ms| == |values|
    ensures forall k :: k in Fields(ms, values, n) ==> k.StrKey? && 0 !in k.s && Among(ms, k.s, n)
  {
    if n > 0 {
      FieldsNamed(ms, values, n - 1);
    }
  }

  lemma FieldOfLast(ms: seq<Member>, values: seq<Value>, j: nat)
    requires |ms| == |values| && j < |ms| && IsLast(ms, j)
    ensures var fields, key := Fields(ms, values, |ms|), StrKey(ms[j].key);
            (if key in fields then fields[key] else Nil) == values[j]
  {
    hide Fields;
    FieldKept(ms, values, ms[j].key, |ms|);
    assert LastIndex(ms, ms[j].key, |ms|) == j;
  }

  lemma NumberStands(d: real, preserve: bool, heap: Heap)
    ensures Stands(Number(d), NumberValue(d), preserve, heap)
  {
    if NumberValue(d).Integer? {
      assert WholeNumber(d, d.Floor);
    }
  }

  lemma {:induction false} DecodeStands(v: Json, preserve: bool, heap: Heap)
    ensures var r := Decode(v, preserve, heap); heap <= r.1 && Stands(v, r.0, preserve, r.1)
    decreases v, 1, 0
  {
    match v {
      case Arr(items) => ArrayStands(v, preserve, heap);
      case Obj(ms) => ObjectStands(v, preserve, heap);
      case Number(d) => NumberStands(d, preserve, heap);
      case _ =>
    }
  }

  lemma {:induction false} ItemsStand(v: Json, preserve: bool, heap: Heap, n: nat)
    requires v.Arr? && n <= |v.items|
    ensures var r := DecodeItems(v, preserve, heap, n);
            forall i :: 0 <= i < n ==> Stands(v.items[i], r.0[i], preserve, r.1)
    decreases v, 0, n
  {
    hide Stands, Decode;
    if n > 0 {
      var before := DecodeItems(v, preserve, heap, n - 1);
      var after := DecodeItems(v, preserve, heap, n);
      ItemsStand(v, preserve, heap, n - 1);
      DecodeStands(v.items[n - 1], preserve, before.1);
      forall i | 0 <= i < n - 1
        ensures Stands(v.items[i], after.0[i], preserve, after.1)
      {
        StandsLater(v.items[i], before.0[i], preserve, before.1, after.1);
      }
    }
  }

  lemma {:induction false} MembersStand(v: Json, preserve: bool, heap: Heap, n: nat)
    requires v.Obj? && n <= |v.members|
    ensures var r := DecodeMembers(v, preserve, heap, n);
            forall j :: 0 <= j < n ==> Stands(v.members[j].value, r.0[j], preserve, r.1)
    decreases v, 0, n
  {
    hide Stands, Decode;
    if n > 0 {
      var before := DecodeMembers(v, preserve, heap, n - 1);
      var after := DecodeMembers(v, preserve, heap, n);
      MembersStand(v, preserve, heap, n - 1);
      DecodeStands(v.members[n - 1].value, preserve, before.1);
      forall j | 0 <= j < n - 1
        ensures Stands(v.members[j].value, after.0[j], preserve, after.1)
      {
        StandsLater(v.members[j].value, before.0[j], preserve, before.1, after.1);
      }
    }
  }

  lemma {:induction false} ArrayStands(v: Json, preserve: bool, heap: Heap)
    requires v.Arr?
    ensures var r := Decode(v, preserve, heap); Stands(v, r.0, preserve, r.1)
    decreases v, 0, |v.items| + 1
  {
    hide Elements;
    var items := DecodeItems(v, preserve, heap, |v.items|);
    var r := Decode(v, preserve, heap);
    ItemsStand(v, preserve, heap, |v.items|);
    ElementsAre(items.0, |v.items|);
    var t := r.1[r.0.address];
    forall i | 0 <= i < |v.items|
      ensures Stands(v.items[i], Get(t, IntKey(i + 1)), preserve, r.1)
    {
      StandsLater(v.items[i], items.0[i], preserve, items.1, r.1);
    }
  }

  lemma {:induction false} ObjectStands(v: Json, preserve: bool, heap: Heap)
    requires v.Obj?
    ensures var r := Decode(v, preserve, heap); Stands(v, r.0, preserve, r.1)
    decreases v, 0, |v.members| + 1
  {
    hide Fields;
    var ms := v.members;
    var members := DecodeMembers(v, preserve, heap, |ms|);
    var r := Decode(v, preserve, heap);
    MembersStand(v, preserve, heap, |ms|);
    FieldsNamed(ms, members.0, |ms|);
    var t := r.1[r.0.address];
    forall j | 0 <= j < |ms| && IsLast(ms, j)
      ensures Stands(ms[j].value, Get(t, StrKey(ms[j].key)), preserve, r.1)
    {
      FieldOfLast(ms, members.0, j);
      StandsLater(ms[j].value, members.0[j], preserve, members.1, r.1);
    }
  }

  // ---------------------------------------------------------------- encoding anything

  /** What encoding makes of a value that is no table, at any depth that is left. */
  lemma LeavesEncoded(lua: Lua, heap: Heap, v: Value, depth: nat)
    requires !v.Ref?
    ensures Encode(lua, heap, v, 0) == None
    ensures depth > 0 ==>
              match v
              case Nil => Encode(lua, heap, v, depth) == Some(Null)
              case Opaque => Encode(lua, heap, v, depth) == Some(Null)
              case Boolean(b) => Encode(lua, heap, v, depth) == Some(Bool(b))
              case Integer(i) => Encode(lua, heap, v, depth) == Some(Number(i as real))
              case Float(d) => Encode(lua, heap, v, depth) == Some(Number(d))
              case String(s) =>
                && Encode(lua, heap, v, depth).Some? && Encode(lua, heap, v, depth).value.Str?
                && CutAtNul(s, Encode(lua, heap, v, depth).value.s)
  {
    if v.String? {
      CutIs(v.s);
    }
  }

  /** The part before the first NUL, or all of it. */
  predicate CutAtNul(s: Text, c: Text) {
    c <= s && 0 !in c && (|c| < |s| ==> s[|c|] == 0)
  }

  lemma {:induction false} CutIs(s: Text)
    ensures CutAtNul(s, AsCText(s))
  {
    if s != [] && s[0] != 0 {
      CutIs(s[1..]);
      assert CString(s) == [s[0]] + CString(s[1..]);
    }
  }

  // ---------------------------------------------------------------- the members of any table

  /** The key order names a field that is there. */
  predicate InOrder(t: Table, order: seq<Option<Text>>, n: nat, key: CText)
    requires n <= |order|
  {
    exists i :: 0 <= i < n && order[i].Some? && AsCText(order[i].value) == key && Get(t, StrKey(key)) != Nil
  }

  /** The traversal meets a string key that C reads as this one, and that is no metadata. */
  predicate InTraversal(keys: seq<Key>, n: nat, key: CText)
    requires n <= |keys|
  {
    exists i :: 0 <= i < n && MetAt(keys, i, key)
  }

  predicate MetAt(keys: seq<Key>, i: nat, key: CText)
    requires i < |keys|
  {
    keys[i].StrKey? && AsCText(keys[i].s) == key && key != KIND && key != JSONTYPE
  }

  /** A slot that the traversal fills. */
  predicate MetBefore(t: Table, keys: seq<Key>, n: nat, slot: Slot)
    requires n <= |keys|
  {
    exists i :: 0 <= i < n && MetAt(keys, i, slot.key) && slot.value == Get(t, keys[i])
  }

  ghost predicate KeysDiffer(slots: seq<Slot>) {
    forall i, j :: 0 <= i < j < |slots| ==> slots[i].key != slots[j].key
  }

  lemma OneMoreSlot(slots: seq<Slot>, slot: Slot)
    requires KeysDiffer(slots) && !Named(slots, slot.key)
    ensures KeysDiffer(slots + [slot])
    ensures forall key: CText :: Named(slots + [slot], key) <==> Named(slots, key) || slot.key == key
  {
    forall key: CText
      ensures Named(slots + [slot], key) <==> Named(slots, key) || slot.key == key
    {
      NamedAppend(slots, slot, key);
    }
  }

  lemma {:induction false} OrderedExactly(t: Table, order: seq<Option<Text>>, n: nat)
    requires n <= |order|
    ensures var slots := OrderedSlots(t, order, n);
            && KeysDiffer(slots)
            && (forall key: CText :: Named(slots, key) <==> InOrder(t, order, n, key))
            && (forall i :: 0 <= i < |slots| ==> slots[i].value == Get(t, StrKey(slots[i].key)))
  {
    hide KeysDiffer, Named, AsCText;
    if n == 0 {
      NoSlots(OrderedSlots(t, order, n));
    } else {
      OrderedExactly(t, order, n - 1);
      var slots := OrderedSlots(t, order, n - 1);
      forall key: CText
        ensures InOrder(t, order, n, key) <==>
                InOrder(t, order, n - 1, key)
                || (order[n - 1].Some? && AsCText(order[n - 1].value) == key && Get(t, StrKey(key)) != Nil)
      {
      }
      if order[n - 1].Some? {
        var key := AsCText(order[n - 1].value);
        if !Named(slots, key) && Get(t, StrKey(key)) != Nil {
          OneMoreSlot(slots, Slot(key, Get(t, StrKey(key))));
        }
      }
    }
  }

  /** The slots that the key order fills. */
  function FromOrder(t: Table): seq<Slot> {
    if t.order.Some? then OrderedSlots(t, t.order.value, |t.order.value|) else []
  }

  lemma NoSlots(slots: seq<Slot>)
    requires slots == []
    ensures KeysDiffer(slots) && forall key: CText :: !Named(slots, key)
  {
  }

  lemma {:induction false} TraversedExactly(t: Table, keys: seq<Key>, n: nat, before: seq<Slot>)
    requires n <= |keys| && KeysDiffer(before)
    ensures var slots := TraversedSlots(t, keys, n, before);
            && before <= slots && KeysDiffer(slots)
            && (forall key: CText :: Named(slots, key) <==> Named(before, key) || InTraversal(keys, n, key))
            && (forall i :: |before| <= i < |slots| ==> MetBefore(t, keys, n, slots[i]))
  {
    hide KeysDiffer, Named, MetAt, AsCText;
    if n > 0 {
      TraversedExactly(t, keys, n - 1, before);
      var slots := TraversedSlots(t, keys, n - 1, before);
      forall key: CText
        ensures InTraversal(keys, n, key) <==> InTraversal(keys, n - 1, key) || MetAt(keys, n - 1, key)
      {
      }
      TraversedStep(t, keys, n, before);
      if keys[n - 1].StrKey? && MetAt(keys, n - 1, AsCText(keys[n - 1].s))
         && !Named(slots, AsCText(keys[n - 1].s)) {
        OneMoreSlot(slots, Slot(AsCText(keys[n - 1].s), Get(t, keys[n - 1])));
      }
    }
  }

  ghost predicate MetAsRead(keys: seq<Key>, i: nat)
    requires i < |keys|
  {
    forall key: CText :: MetAt(keys, i, key) ==> keys[i].StrKey? && key == AsCText(keys[i].s)
  }

  lemma TraversedStep(t: Table, keys: seq<Key>, n: nat, before: seq<Slot>)
    requires 0 < n <= |keys|
    ensures var slots := TraversedSlots(t, keys, n - 1, before);
            TraversedSlots(t, keys, n, before) ==
            slots + if keys[n - 1].StrKey? && MetAt(keys, n - 1, AsCText(keys[n - 1].s))
                       && !Named(slots, AsCText(keys[n - 1].s))
                    then [Slot(AsCText(keys[n - 1].s), Get(t, keys[n - 1]))] else []
    ensures MetAsRead(keys, n - 1)
  {
    hide Named, AsCText;
  }

  /** The members that encoding takes from any table, each key once: first the fields that the
      key order names, with their values; then what the traversal meets besides, without
      metadata. */
  lemma SlotsExactly(t: Table, keys: seq<Key>)
    ensures KeysDiffer(Slots(t, keys)) && FromOrder(t) <= Slots(t, keys)
    ensures forall key: CText :: Named(FromOrder(t), key) <==>
                                 t.order.Some? && InOrder(t, t.order.value, |t.order.value|, key)
    ensures forall key: CText :: Named(Slots(t, keys), key) <==>
                                 Named(FromOrder(t), key) || InTraversal(keys, |keys|, key)
    ensures var slots := Slots(t, keys);
            && (forall i :: 0 <= i < |FromOrder(t)| ==> slots[i].value == Get(t, StrKey(slots[i].key)))
            && (forall i :: |FromOrder(t)| <= i < |slots| ==> MetBefore(t, keys, |keys|, slots[i]))
  {
    hide KeysDiffer, Named, MetAt, InOrder, InTraversal, OrderedSlots, TraversedSlots;
    NoSlots([]);
    if t.order.Some? {
      OrderedExactly(t, t.order.value, |t.order.value|);
    }
    TraversedExactly(t, keys, |keys|, FromOrder(t));
  }
}
