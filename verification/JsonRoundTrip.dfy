/**
 Decoding a tree and encoding it again, in preserve mode: the same tree comes back, but for
 keys that occur twice, and as long as it is not nested too deeply.
 */
module JsonRoundTrip {
  import opened Bytes
  import opened Json

  // ---------------------------------------------------------------- trees

  function Max(a: nat, b: nat): nat {
    if a < b then b else a
  }

  /** The depth of a tree, counting its leaves. */
  function Depth(v: Json): (d: nat)
    ensures d > 0
    decreases v, 1, 0
  {
    if v.Arr? then 1 + DeepestItem(v, |v.items|)
    else if v.Obj? then 1 + DeepestMember(v, |v.members|)
    else 1
  }

  function DeepestItem(v: Json, n: nat): nat
    requires v.Arr? && n <= |v.items|
    decreases v, 0, n
  {
    if n == 0 then 0 else Max(DeepestItem(v, n - 1), Depth(v.items[n - 1]))
  }

  function DeepestMember(v: Json, n: nat): nat
    requires v.Obj? && n <= |v.members|
    decreases v, 0, n
  {
    if n == 0 then 0 else Max(DeepestMember(v, n - 1), Depth(v.members[n - 1].value))
  }

  lemma {:induction false} DeepestItemIs(v: Json, n: nat, k: nat)
    requires v.Arr? && n <= |v.items|
    ensures DeepestItem(v, n) <= k <==> forall i :: 0 <= i < n ==> Depth(v.items[i]) <= k
  {
    if n > 0 {
      DeepestItemIs(v, n - 1, k);
    }
  }

  lemma {:induction false} DeepestMemberIs(v: Json, n: nat, k: nat)
    requires v.Obj? && n <= |v.members|
    ensures DeepestMember(v, n) <= k <==> forall i :: 0 <= i < n ==> Depth(v.members[i].value) <= k
  {
    if n > 0 {
      DeepestMemberIs(v, n - 1, k);
    }
  }

  /** The keys of the first n members, each at its first place. */
  function FirstKeys(ms: seq<Member>, n: nat): (ks: seq<CText>)
    requires n <= |ms|
    ensures forall k :: k in ks <==> exists j :: 0 <= j < n && ms[j].key == k
    ensures forall i, j :: 0 <= i < j < |ks| ==> ks[i] != ks[j]
  {
    if n == 0 then []
    else
      var ks := FirstKeys(ms, n - 1);
      if ms[n - 1].key in ks then ks else ks + [ms[n - 1].key]
  }

  /** The last of the first n members with a key. */
  function LastIndex(ms: seq<Member>, key: CText, n: nat): (j: nat)
    requires n <= |ms| && exists j :: 0 <= j < n && ms[j].key == key
    ensures j < n && ms[j].key == key && forall i :: j < i < n ==> ms[i].key != key
  {
    if ms[n - 1].key == key then n - 1 else LastIndex(ms, key, n - 1)
  }

  /** A key that occurs twice keeps its first place and its last value. */
  function Collapsed(v: Json): Json
    decreases v
  {
    match v
    case Arr(items) => Arr(seq(|items|, i requires 0 <= i < |items| => Collapsed(items[i])))
    case Obj(ms) =>
      var ks := FirstKeys(ms, |ms|);
      Obj(seq(|ks|, i requires 0 <= i < |ks| =>
        assert ks[i] in ks; Member(ks[i], Collapsed(ms[LastIndex(ms, ks[i], |ms|)].value))))
    case _ => v
  }

  predicate DuplicateFree(v: Json)
    decreases v
  {
    match v
    case Arr(items) => forall i :: 0 <= i < |items| ==> DuplicateFree(items[i])
    case Obj(ms) =>
      && (forall i, j :: 0 <= i < j < |ms| ==> ms[i].key != ms[j].key)
      && forall i :: 0 <= i < |ms| ==> DuplicateFree(ms[i].value)
    case _ => true
  }

  lemma {:induction false} DistinctKeys(ms: seq<Member>, n: nat)
    requires n <= |ms| && forall i, j :: 0 <= i < j < |ms| ==> ms[i].key != ms[j].key
    ensures |FirstKeys(ms, n)| == n && forall i :: 0 <= i < n ==> FirstKeys(ms, n)[i] == ms[i].key
  {
    if n > 0 {
      DistinctKeys(ms, n - 1);
    }
  }

  lemma {:induction false} NothingToCollapse(v: Json)
    requires DuplicateFree(v)
    ensures Collapsed(v) == v
    decreases v
  {
    match v {
      case Arr(items) =>
        forall i | 0 <= i < |items|
          ensures Collapsed(items[i]) == items[i]
        {
          NothingToCollapse(items[i]);
        }
      case Obj(ms) =>
        DistinctKeys(ms, |ms|);
        var out := Collapsed(v).members;
        forall i | 0 <= i < |ms|
          ensures out[i] == ms[i]
        {
          NothingToCollapse(ms[i].value);
          assert LastIndex(ms, ms[i].key, |ms|) == i;
        }
      case _ =>
    }
  }

  // ---------------------------------------------------------------- the decoded tables

  lemma NeverNil(v: Json, heap: Heap)
    ensures Decode(v, true, heap).0 != Nil
  {
  }

  lemma {:induction false} MembersNeverNil(v: Json, heap: Heap, n: nat)
    requires v.Obj? && n <= |v.members|
    ensures Nil !in DecodeMembers(v, true, heap, n).0
  {
    hide Decode;
    if n > 0 {
      MembersNeverNil(v, heap, n - 1);
      NeverNil(v.members[n - 1].value, DecodeMembers(v, true, heap, n - 1).1);
    }
  }

  lemma {:induction false} ItemsNeverNil(v: Json, heap: Heap, n: nat)
    requires v.Arr? && n <= |v.items|
    ensures Nil !in DecodeItems(v, true, heap, n).0
  {
    hide Decode;
    if n > 0 {
      ItemsNeverNil(v, heap, n - 1);
      NeverNil(v.items[n - 1], DecodeItems(v, true, heap, n - 1).1);
    }
  }

  lemma {:induction false} FieldsHold(ms: seq<Member>, values: seq<Value>, n: nat)
    requires n <= |ms| == |values| && Nil !in values
    ensures forall k :: k in Fields(ms, values, n) <==> k.StrKey? && exists j :: 0 <= j < n && ms[j].key == k.s
    ensures forall key: CText :: StrKey(key) in Fields(ms, values, n) ==>
              Fields(ms, values, n)[StrKey(key)] == values[LastIndex(ms, key, n)]
  {
    if n > 0 {
      FieldsHold(ms, values, n - 1);
      assert values[n - 1] in values;
    }
  }

  lemma {:induction false} ElementsHold(values: seq<Value>, n: nat)
    requires n <= |values| && Nil !in values
    ensures forall k :: k in Elements(values, n) <==> k.IntKey? && 1 <= k.i <= n
    ensures forall i :: 1 <= i <= n ==> Elements(values, n)[IntKey(i)] == values[i - 1]
  {
    if n > 0 {
      ElementsHold(values, n - 1);
      assert values[n - 1] in values;
    }
  }

  /** The table of a decoded object. */
  function ObjectTable(ms: seq<Member>, values: seq<Value>): Table
    requires |ms| == |values|
  {
    Table(Fields(ms, values, |ms|), ObjectTag, Some(seq(|ms|, i requires 0 <= i < |ms| => Some(ms[i].key))))
  }

  /** The slots that encoding it will fill. */
  function ObjectSlots(ms: seq<Member>, values: seq<Value>, n: nat): seq<Slot>
    requires n <= |ms| == |values|
  {
    var ks := FirstKeys(ms, n);
    seq(|ks|, i requires 0 <= i < |ks| => assert ks[i] in ks; Slot(ks[i], values[LastIndex(ms, ks[i], |ms|)]))
  }

  lemma NamedSlots(ms: seq<Member>, values: seq<Value>, n: nat, key: CText)
    requires n <= |ms| == |values|
    ensures Named(ObjectSlots(ms, values, n), key) <==> key in FirstKeys(ms, n)
  {
    var ks, slots := FirstKeys(ms, n), ObjectSlots(ms, values, n);
    if key in ks {
      var i :| 0 <= i < |ks| && ks[i] == key;
      assert slots[i].key == key;
    }
  }

  lemma ObjectField(ms: seq<Member>, values: seq<Value>, j: nat)
    requires j < |ms| == |values| && Nil !in values
    ensures var t := ObjectTable(ms, values);
            && t.order.Some? && |t.order.value| == |ms| && t.order.value[j] == Some(ms[j].key)
            && Get(t, StrKey(ms[j].key)) == values[LastIndex(ms, ms[j].key, |ms|)] != Nil
  {
    FieldsHold(ms, values, |ms|);
    assert values[LastIndex(ms, ms[j].key, |ms|)] in values;
  }

  lemma NextSlot(ms: seq<Member>, values: seq<Value>, j: nat)
    requires j < |ms| == |values|
    ensures var key := ms[j].key;
            ObjectSlots(ms, values, j + 1) ==
            ObjectSlots(ms, values, j)
            + if key in FirstKeys(ms, j) then [] else [Slot(key, values[LastIndex(ms, key, |ms|)])]
  {
    hide LastIndex;
  }

  lemma OrderedNext(t: Table, key: CText, j: nat)
    requires t.order.Some? && j < |t.order.value| && t.order.value[j] == Some(key)
    ensures var before, value := OrderedSlots(t, t.order.value, j), Get(t, StrKey(key));
            OrderedSlots(t, t.order.value, j + 1) ==
            before + if Named(before, key) || value == Nil then [] else [Slot(key, value)]
  {
    hide Named;
    CStringOfCText(key);
  }

  lemma {:induction false} SlotsInOrder(ms: seq<Member>, values: seq<Value>, n: nat)
    requires n <= |ms| == |values| && Nil !in values
    ensures var t := ObjectTable(ms, values); OrderedSlots(t, t.order.value, n) == ObjectSlots(ms, values, n)
  {
    if n > 0 {
      hide Named, Fields, ObjectTable, ObjectSlots, FirstKeys, OrderedSlots, Get, LastIndex;
      var key := ms[n - 1].key;
      SlotsInOrder(ms, values, n - 1);
      OrderedNext(ObjectTable(ms, values), key, n - 1);
      NamedSlots(ms, values, n - 1, key);
      ObjectField(ms, values, n - 1);
      NextSlot(ms, values, n - 1);
    } else {
      var t := ObjectTable(ms, values);
      assert OrderedSlots(t, t.order.value, n) == [] == ObjectSlots(ms, values, n);
    }
  }

  lemma FieldIsSlot(ms: seq<Member>, values: seq<Value>, k: Key)
    requires |ms| == |values| && Nil !in values && k in ObjectTable(ms, values).fields
    ensures k.StrKey? && AsCText(k.s) == k.s && Named(ObjectSlots(ms, values, |ms|), k.s)
  {
    hide Named, LastIndex, Fields, ObjectSlots;
    FieldsHold(ms, values, |ms|);
    CStringOfCText(k.s);
    NamedSlots(ms, values, |ms|, k.s);
  }

  lemma TraversedNext(t: Table, keys: seq<Key>, j: nat, before: seq<Slot>)
    requires j < |keys| && keys[j].StrKey?
    ensures var slots := TraversedSlots(t, keys, j, before);
            Named(slots, AsCText(keys[j].s)) ==> TraversedSlots(t, keys, j + 1, before) == slots
  {
    hide Named;
  }

  lemma {:induction false} NothingMore(ms: seq<Member>, values: seq<Value>, keys: seq<Key>, n: nat)
    requires |ms| == |values| && Nil !in values && n <= |keys|
    requires forall k :: k in keys ==> k in ObjectTable(ms, values).fields
    ensures var slots := ObjectSlots(ms, values, |ms|); TraversedSlots(ObjectTable(ms, values), keys, n, slots) == slots
  {
    if n > 0 {
      hide Named, LastIndex, Fields, ObjectSlots, FirstKeys, TraversedSlots, ObjectTable;
      NothingMore(ms, values, keys, n - 1);
      assert keys[n - 1] in keys;
      FieldIsSlot(ms, values, keys[n - 1]);
      TraversedNext(ObjectTable(ms, values), keys, n - 1, ObjectSlots(ms, values, |ms|));
    }
  }

  lemma SlotsOfObject(ms: seq<Member>, values: seq<Value>, keys: seq<Key>)
    requires |ms| == |values| && Nil !in values
    requires forall k :: k in keys ==> k in ObjectTable(ms, values).fields
    ensures Slots(ObjectTable(ms, values), keys) == ObjectSlots(ms, values, |ms|)
  {
    hide OrderedSlots, TraversedSlots, ObjectSlots, Fields;
    SlotsInOrder(ms, values, |ms|);
    NothingMore(ms, values, keys, |keys|);
  }

  // ---------------------------------------------------------------- encoding them again

  /** What comes back for a tree at a depth. */
  function Expected(v: Json, depth: nat): Option<Json> {
    if Depth(Collapsed(v)) <= depth then Some(Collapsed(v)) else None
  }

  lemma EncodedObject(lua: Lua, heap: Heap, a: nat, ms: seq<Member>, values: seq<Value>, depth: nat)
    requires Lawful(lua, heap) && a < |heap| && |ms| == |values| && Nil !in values && depth > 0
    requires heap[a] == ObjectTable(ms, values)
    requires forall i :: 0 <= i < |ms| ==> Encode(lua, heap, values[i], depth - 1) == Expected(ms[i].value, depth - 1)
    ensures Encode(lua, heap, Ref(a), depth) == Expected(Obj(ms), depth)
  {
    hide Slots, Fields, FirstKeys, LastIndex, Depth, Encode;
    var slots := ObjectSlots(ms, values, |ms|);
    var ks, out := FirstKeys(ms, |ms|), Collapsed(Obj(ms));
    SlotsOfObject(ms, values, lua.next(a));
    var children := Children(lua, heap, a);
    assert |children| == |ks| == |out.members|;
    forall i | 0 <= i < |ks|
      ensures Encode(lua, heap, children[i], depth - 1) ==
              if Depth(out.members[i].value) <= depth - 1 then Some(out.members[i].value) else None
      ensures slots[i].key == out.members[i].key
    {
      assert ks[i] in ks;
    }
    EncodeTable(lua, heap, a, depth);
    ObjectDepth(out, depth);
    var r := Encode(lua, heap, Ref(a), depth);
    if r.Some? {
      assert r.value.members == out.members;
    }
  }

  lemma ObjectDepth(v: Json, depth: nat)
    requires v.Obj? && depth > 0
    ensures Depth(v) <= depth <==> forall i :: 0 <= i < |v.members| ==> Depth(v.members[i].value) <= depth - 1
  {
    DeepestMemberIs(v, |v.members|, depth - 1);
  }

  lemma ArrayDepth(v: Json, depth: nat)
    requires v.Arr? && depth > 0
    ensures Depth(v) <= depth <==> forall i :: 0 <= i < |v.items| ==> Depth(v.items[i]) <= depth - 1
  {
    DeepestItemIs(v, |v.items|, depth - 1);
  }

  lemma ArrayChild(lua: Lua, heap: Heap, a: nat)
    requires Lawful(lua, heap) && a < |heap| && heap[a].tag == ArrayTag
    ensures IsArray(heap[a], lua.next(a)) && Border(lua.rawlen(a), heap[a].fields)
    ensures |Children(lua, heap, a)| == lua.rawlen(a)
    ensures forall i :: 0 <= i < lua.rawlen(a) ==> Children(lua, heap, a)[i] == Get(heap[a], IntKey(i + 1))
  {
    hide Slots;
  }

  lemma ChildrenOfArray(lua: Lua, heap: Heap, a: nat, values: seq<Value>)
    requires Lawful(lua, heap) && a < |heap| && Nil !in values
    requires heap[a] == Table(Elements(values, |values|), ArrayTag, None)
    ensures IsArray(heap[a], lua.next(a)) && Children(lua, heap, a) == values
  {
    hide Elements, Children, Lawful, IsArray, Border;
    ArrayChild(lua, heap, a);
    ElementsHold(values, |values|);
    OnlyBorder(lua.rawlen(a), heap[a].fields, |values|);
  }

  lemma OnlyBorder(n: nat, fields: map<Key, Value>, m: nat)
    requires Border(n, fields) && forall k :: k in fields <==> k.IntKey? && 1 <= k.i <= m
    ensures n == m
  {
    assert n < m ==> IntKey(n + 1) in fields;
  }

  lemma EncodedArray(lua: Lua, heap: Heap, a: nat, items: seq<Json>, values: seq<Value>, depth: nat)
    requires Lawful(lua, heap) && a < |heap| && |items| == |values| && Nil !in values && depth > 0
    requires heap[a] == Table(Elements(values, |values|), ArrayTag, None)
    requires forall i :: 0 <= i < |items| ==>
               Encode(lua, heap, values[i], depth - 1) == Expected(items[i], depth - 1)
    ensures Encode(lua, heap, Ref(a), depth) == Expected(Arr(items), depth)
  {
    hide Depth, Elements, Encode, Lawful, IsArray, Children, Slots;
    ChildrenOfArray(lua, heap, a, values);
    var out := Collapsed(Arr(items));
    EncodeTable(lua, heap, a, depth);
    ArrayDepth(out, depth);
    assert forall i :: 0 <= i < |items| ==> out.items[i] == Collapsed(items[i]);
    var r := Encode(lua, heap, Ref(a), depth);
    assert r.Some? <==> forall i :: 0 <= i < |items| ==> Depth(out.items[i]) <= depth - 1;
    if r.Some? {
      assert r.value.items == out.items;
    }
  }

  lemma {:induction false} RoundTrip(lua: Lua, full: Heap, v: Json, heap: Heap, depth: nat)
    requires Lawful(lua, full) && Decode(v, true, heap).1 <= full
    ensures Encode(lua, full, Decode(v, true, heap).0, depth) == Expected(v, depth)
    decreases v, 2, 0
  {
    hide Lawful, Encode, Decode, Expected;
    if depth == 0 {
      TooShallow(lua, full, v, heap);
    } else if v.Obj? {
      ObjectRoundTrip(lua, full, v, heap, depth);
    } else if v.Arr? {
      ArrayRoundTrip(lua, full, v, heap, depth);
    } else {
      LeafRoundTrip(lua, full, v, heap, depth);
    }
  }

  lemma TooShallow(lua: Lua, full: Heap, v: Json, heap: Heap)
    ensures Encode(lua, full, Decode(v, true, heap).0, 0) == Expected(v, 0)
  {
    hide Decode;
  }

  lemma LeafRoundTrip(lua: Lua, full: Heap, v: Json, heap: Heap, depth: nat)
    requires !v.Obj? && !v.Arr? && depth > 0
    ensures Encode(lua, full, Decode(v, true, heap).0, depth) == Expected(v, depth)
  {
    hide EncodeAll, Slots;
    if v.Str? {
      CStringOfCText(v.s);
    }
  }

  lemma {:induction false} ObjectRoundTrip(lua: Lua, full: Heap, v: Json, heap: Heap, depth: nat)
    requires Lawful(lua, full) && v.Obj? && Decode(v, true, heap).1 <= full && depth > 0
    ensures Encode(lua, full, Decode(v, true, heap).0, depth) == Expected(v, depth)
    decreases v, 1, 0
  {
    hide Lawful, Encode, Expected, Fields, DecodeMembers;
    var (values, grown) := DecodeMembers(v, true, heap, |v.members|);
    MembersNeverNil(v, heap, |v.members|);
    AtEnd(grown, ObjectTable(v.members, values), full);
    MembersRoundTrip(lua, full, v, heap, |v.members|, depth - 1);
    EncodedObject(lua, full, |grown|, v.members, values, depth);
  }

  lemma {:induction false} ArrayRoundTrip(lua: Lua, full: Heap, v: Json, heap: Heap, depth: nat)
    requires Lawful(lua, full) && v.Arr? && Decode(v, true, heap).1 <= full && depth > 0
    ensures Encode(lua, full, Decode(v, true, heap).0, depth) == Expected(v, depth)
    decreases v, 1, 0
  {
    hide Lawful, Encode, Expected, Elements, DecodeItems;
    var (values, grown) := DecodeItems(v, true, heap, |v.items|);
    ItemsNeverNil(v, heap, |v.items|);
    AtEnd(grown, Table(Elements(values, |v.items|), ArrayTag, None), full);
    ItemsRoundTrip(lua, full, v, heap, |v.items|, depth - 1);
    EncodedArray(lua, full, |grown|, v.items, values, depth);
  }

  lemma AtEnd(grown: Heap, t: Table, full: Heap)
    requires grown + [t] <= full
    ensures grown <= full && |grown| < |full| && full[|grown|] == t
  {
    assert (grown + [t])[|grown|] == t;
  }

  lemma {:induction false} MembersRoundTrip(lua: Lua, full: Heap, v: Json, heap: Heap, n: nat, depth: nat)
    requires Lawful(lua, full) && v.Obj? && n <= |v.members| && DecodeMembers(v, true, heap, n).1 <= full
    ensures forall i :: 0 <= i < n ==>
              Encode(lua, full, DecodeMembers(v, true, heap, n).0[i], depth) == Expected(v.members[i].value, depth)
    decreases v, 0, n
  {
    hide Lawful, Encode, Decode, Expected;
    if n > 0 {
      var grown := DecodeMembers(v, true, heap, n - 1).1;
      MembersRoundTrip(lua, full, v, heap, n - 1, depth);
      RoundTrip(lua, full, v.members[n - 1].value, grown, depth);
    }
  }

  lemma {:induction false} ItemsRoundTrip(lua: Lua, full: Heap, v: Json, heap: Heap, n: nat, depth: nat)
    requires Lawful(lua, full) && v.Arr? && n <= |v.items| && DecodeItems(v, true, heap, n).1 <= full
    ensures forall i :: 0 <= i < n ==>
              Encode(lua, full, DecodeItems(v, true, heap, n).0[i], depth) == Expected(v.items[i], depth)
    decreases v, 0, n
  {
    hide Lawful, Encode, Decode, Expected;
    if n > 0 {
      var grown := DecodeItems(v, true, heap, n - 1).1;
      ItemsRoundTrip(lua, full, v, heap, n - 1, depth);
      RoundTrip(lua, full, v.items[n - 1], grown, depth);
    }
  }

  /** A tree without duplicate keys comes back exactly as it was if it is at most 1000 deep;
      otherwise it is rejected. */
  lemma DuplicateFreeRoundTrip(lua: Lua, v: Json, heap: Heap)
    requires DuplicateFree(v) && Lawful(lua, Decode(v, true, heap).1)
    ensures var r := Decode(v, true, heap);
            Encode(lua, r.1, r.0, 1000) == if Depth(v) <= 1000 then Some(v) else None
  {
    RoundTrip(lua, Decode(v, true, heap).1, v, heap, 1000);
    NothingToCollapse(v);
  }
}
