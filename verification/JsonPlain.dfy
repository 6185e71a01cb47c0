/**
 Decoding and encoding without preserve: what comes back of a tree, and what is lost.
 */
module JsonPlain {
  import opened Bytes
  import opened Json
  import opened JsonRoundTrip

  predicate Has(ms: seq<Member>, key: CText) {
    exists j :: 0 <= j < |ms| && ms[j].key == key
  }

  /** A key survives if its last value is not null and it does not look like metadata. */
  predicate Survives(ms: seq<Member>, key: CText) {
    && Has(ms, key) && ms[LastIndex(ms, key, |ms|)].value != Null
    && key != KIND && key != JSONTYPE
  }

  ghost predicate Distinct(ms: seq<Member>) {
    forall i, j :: 0 <= i < j < |ms| ==> ms[i].key != ms[j].key
  }

  /** What r has of v: of an object exactly the surviving keys, each once and with the image
      of its last value, in any order; of an array without nulls all items. */
  ghost predicate Image(v: Json, r: Json)
    decreases v
  {
    match v
    case Obj(ms) =>
      && r.Obj? && Distinct(r.members)
      && (forall key: CText :: Has(r.members, key) <==> Survives(ms, key))
      && forall i :: 0 <= i < |r.members| ==>
           Survives(ms, r.members[i].key) && Image(ms[LastIndex(ms, r.members[i].key, |ms|)].value, r.members[i].value)
    case Arr(items) =>
      && r.Arr?
      && ((forall i :: 0 <= i < |items| ==> items[i] != Null) ==>
            |r.items| == |items| && forall i :: 0 <= i < |items| ==> Image(items[i], r.items[i]))
    case _ => r == v
  }

  /** What may come back of v at a depth: an image, and that for certain if v is not deeper. */
  ghost predicate ComesBack(v: Json, r: Option<Json>, depth: nat) {
    (r.Some? ==> Image(v, r.value)) && (Depth(v) <= depth ==> r.Some?)
  }

  // ---------------------------------------------------------------- the decoded tables

  lemma NilIffNull(v: Json, heap: Heap)
    ensures Decode(v, false, heap).0 == Nil <==> v == Null
  {
  }

  lemma {:induction false} MembersNil(v: Json, heap: Heap, n: nat)
    requires v.Obj? && n <= |v.members|
    ensures forall j :: 0 <= j < n ==> (DecodeMembers(v, false, heap, n).0[j] == Nil <==> v.members[j].value == Null)
  {
    hide Decode;
    if n > 0 {
      MembersNil(v, heap, n - 1);
      NilIffNull(v.members[n - 1].value, DecodeMembers(v, false, heap, n - 1).1);
    }
  }

  lemma {:induction false} ItemsNil(v: Json, heap: Heap, n: nat)
    requires v.Arr? && n <= |v.items|
    ensures forall j :: 0 <= j < n ==> (DecodeItems(v, false, heap, n).0[j] == Nil <==> v.items[j] == Null)
  {
    hide Decode;
    if n > 0 {
      ItemsNil(v, heap, n - 1);
      NilIffNull(v.items[n - 1], DecodeItems(v, false, heap, n - 1).1);
    }
  }

  predicate Among(ms: seq<Member>, key: CText, n: nat)
    requires n <= |ms|
  {
    exists j :: 0 <= j < n && ms[j].key == key
  }

  /** A field is there if and only if the last assignment to it was not nil. */
  lemma {:induction false} FieldKept(ms: seq<Member>, values: seq<Value>, key: CText, n: nat)
    requires n <= |ms| == |values|
    ensures var fields := Fields(ms, values, n);
            && (StrKey(key) in fields <==> Among(ms, key, n) && values[LastIndex(ms, key, n)] != Nil)
            && (StrKey(key) in fields ==> fields[StrKey(key)] == values[LastIndex(ms, key, n)])
  {
    if n > 0 {
      FieldKept(ms, values, key, n - 1);
    }
  }

  lemma {:induction false} OnlyStrings(ms: seq<Member>, values: seq<Value>, n: nat)
    requires n <= |ms| == |values|
    ensures forall k :: k in Fields(ms, values, n) ==> k.StrKey? && 0 !in k.s
  {
    if n > 0 {
      OnlyStrings(ms, values, n - 1);
    }
  }

  lemma FieldsKeep(ms: seq<Member>, values: seq<Value>, n: nat)
    requires n <= |ms| == |values|
    ensures forall k :: k in Fields(ms, values, n) ==> k.StrKey? && 0 !in k.s
    ensures forall key: CText :: StrKey(key) in Fields(ms, values, n) <==>
                                 Among(ms, key, n) && values[LastIndex(ms, key, n)] != Nil
    ensures forall key: CText :: StrKey(key) in Fields(ms, values, n) ==>
              Among(ms, key, n) && Fields(ms, values, n)[StrKey(key)] == values[LastIndex(ms, key, n)]
  {
    hide Fields, LastIndex;
    OnlyStrings(ms, values, n);
    forall key: CText
      ensures StrKey(key) in Fields(ms, values, n) <==> Among(ms, key, n) && values[LastIndex(ms, key, n)] != Nil
      ensures StrKey(key) in Fields(ms, values, n) ==>
                Fields(ms, values, n)[StrKey(key)] == values[LastIndex(ms, key, n)]
    {
      FieldKept(ms, values, key, n);
    }
  }

  // ---------------------------------------------------------------- their slots

  /** The slots that the first n keys fill. */
  ghost predicate FilledBy(slots: seq<Slot>, t: Table, keys: seq<Key>, n: nat)
    requires n <= |keys|
  {
    && (forall i, j :: 0 <= i < j < |slots| ==> slots[i].key != slots[j].key)
    && (forall i :: 0 <= i < |slots| ==>
          && StrKey(slots[i].key) in keys[..n] && slots[i].value == Get(t, StrKey(slots[i].key))
          && slots[i].key != KIND && slots[i].key != JSONTYPE)
    && forall key: CText :: StrKey(key) in keys[..n] && key != KIND && key != JSONTYPE ==> Named(slots, key)
  }

  lemma OneMoreKey(t: Table, keys: seq<Key>, n: nat, before: seq<Slot>)
    requires n < |keys| && keys[n].StrKey? && 0 !in keys[n].s
    ensures var slots := TraversedSlots(t, keys, n, before);
            TraversedSlots(t, keys, n + 1, before) ==
            slots + if keys[n].s == KIND || keys[n].s == JSONTYPE || Named(slots, keys[n].s) then []
                    else [Slot(keys[n].s, Get(t, keys[n]))]
  {
    hide Named;
    CStringOfCText(keys[n].s);
  }

  lemma NamedAppend(slots: seq<Slot>, slot: Slot, key: CText)
    ensures Named(slots + [slot], key) <==> Named(slots, key) || slot.key == key
  {
    var more := slots + [slot];
    assert more[|slots|] == slot;
    forall i | 0 <= i < |slots|
      ensures more[i] == slots[i]
    {
    }
  }

  lemma FilledMore(slots: seq<Slot>, t: Table, keys: seq<Key>, n: nat)
    requires n < |keys| && keys[n].StrKey? && 0 !in keys[n].s && FilledBy(slots, t, keys, n)
    requires forall i :: 0 <= i < n ==> keys[i] != keys[n]
    ensures var k := keys[n].s;
            var more := if k == KIND || k == JSONTYPE || Named(slots, k) then [] else [Slot(k, Get(t, keys[n]))];
            FilledBy(slots + more, t, keys, n + 1)
  {
    hide Get;
    var k := keys[n].s;
    assert keys[..n + 1] == keys[..n] + [keys[n]];
    assert !Named(slots, k);
    if k != KIND && k != JSONTYPE {
      forall key: CText
        ensures Named(slots + [Slot(k, Get(t, keys[n]))], key) <==> Named(slots, key) || k == key
      {
        NamedAppend(slots, Slot(k, Get(t, keys[n])), key);
      }
    } else {
      assert slots + [] == slots;
    }
  }

  lemma {:induction false} SlotsFilled(t: Table, keys: seq<Key>, n: nat)
    requires n <= |keys| && forall i :: 0 <= i < |keys| ==> keys[i].StrKey? && 0 !in keys[i].s
    requires forall i, j :: 0 <= i < j < |keys| ==> keys[i] != keys[j]
    ensures FilledBy(TraversedSlots(t, keys, n, []), t, keys, n)
  {
    hide FilledBy, Named, Get, TraversedSlots;
    if n == 0 {
      NothingFilled(t, keys);
    } else {
      SlotsFilled(t, keys, n - 1);
      OneMoreKey(t, keys, n - 1, []);
      FilledMore(TraversedSlots(t, keys, n - 1, []), t, keys, n - 1);
    }
  }

  lemma NothingFilled(t: Table, keys: seq<Key>)
    ensures FilledBy(TraversedSlots(t, keys, 0, []), t, keys, 0)
  {
  }

  /** The table of a decoded object, plain: no tag and no order. */
  function PlainTable(ms: seq<Member>, values: seq<Value>): Table
    requires |ms| == |values|
  {
    Table(Fields(ms, values, |ms|), Untagged, None)
  }

  /** Its slots: the surviving keys, each once, with the value of the last member. */
  ghost predicate SlotsOf(slots: seq<Slot>, ms: seq<Member>, values: seq<Value>)
    requires |ms| == |values|
  {
    && (forall i, j :: 0 <= i < j < |slots| ==> slots[i].key != slots[j].key)
    && (forall key: CText :: Named(slots, key) <==> Survives(ms, key))
    && forall i :: 0 <= i < |slots| ==>
         Survives(ms, slots[i].key) && slots[i].value == values[LastIndex(ms, slots[i].key, |ms|)]
  }

  lemma SlotsOfPlain(ms: seq<Member>, values: seq<Value>, keys: seq<Key>)
    requires |ms| == |values| && Enumerates(keys, PlainTable(ms, values).fields)
    requires forall j :: 0 <= j < |ms| ==> (values[j] == Nil <==> ms[j].value == Null)
    ensures !IsArray(PlainTable(ms, values), keys) && SlotsOf(Slots(PlainTable(ms, values), keys), ms, values)
  {
    hide Fields, LastIndex, TraversedSlots;
    var t := PlainTable(ms, values);
    FieldsKeep(ms, values, |ms|);
    forall i | 0 <= i < |keys|
      ensures keys[i].StrKey? && 0 !in keys[i].s
    {
      assert keys[i] in keys;
    }
    assert keys != [] ==> keys[0].StrKey?;
    SlotsFilled(t, keys, |keys|);
    assert keys[..|keys|] == keys;
    FieldsSurvive(ms, values);
    FilledIsSlots(Slots(t, keys), ms, values, keys);
  }

  lemma FieldsSurvive(ms: seq<Member>, values: seq<Value>)
    requires |ms| == |values|
    requires forall j :: 0 <= j < |ms| ==> (values[j] == Nil <==> ms[j].value == Null)
    ensures forall key: CText :: key != KIND && key != JSONTYPE ==>
              (StrKey(key) in PlainTable(ms, values).fields <==> Survives(ms, key))
    ensures forall key: CText :: Survives(ms, key) ==>
              Get(PlainTable(ms, values), StrKey(key)) == values[LastIndex(ms, key, |ms|)]
  {
    hide Fields;
    FieldsKeep(ms, values, |ms|);
  }

  lemma FilledIsSlots(slots: seq<Slot>, ms: seq<Member>, values: seq<Value>, keys: seq<Key>)
    requires |ms| == |values| && Enumerates(keys, PlainTable(ms, values).fields)
    requires forall j :: 0 <= j < |ms| ==> (values[j] == Nil <==> ms[j].value == Null)
    requires FilledBy(slots, PlainTable(ms, values), keys, |keys|) && keys[..|keys|] == keys
    ensures SlotsOf(slots, ms, values)
  {
    hide PlainTable, Get, LastIndex;
    FieldsSurvive(ms, values);
    forall i | 0 <= i < |slots|
      ensures Survives(ms, slots[i].key) && slots[i].value == values[LastIndex(ms, slots[i].key, |ms|)]
    {
      assert StrKey(slots[i].key) in keys;
    }
    forall key: CText
      ensures Named(slots, key) <==> Survives(ms, key)
    {
      if Survives(ms, key) {
        assert StrKey(key) in keys;
      }
    }
  }

  // ---------------------------------------------------------------- encoding them again

  lemma ObjectImage(lua: Lua, heap: Heap, a: nat, ms: seq<Member>, values: seq<Value>, depth: nat)
    requires Lawful(lua, heap) && a < |heap| && |ms| == |values| && heap[a] == PlainTable(ms, values) && depth > 0
    requires forall j :: 0 <= j < |ms| ==> (values[j] == Nil <==> ms[j].value == Null)
    requires forall j :: 0 <= j < |ms| ==> ComesBack(ms[j].value, Encode(lua, heap, values[j], depth - 1), depth - 1)
    ensures ComesBack(Obj(ms), Encode(lua, heap, Ref(a), depth), depth)
  {
    hide Encode, Fields, LastIndex, Slots, Image, Depth;
    SlotsOfPlain(ms, values, lua.next(a));
    EncodeTable(lua, heap, a, depth);
    ObjectDepth(Obj(ms), depth);
    var r, slots, children := Encode(lua, heap, Ref(a), depth), Slots(heap[a], lua.next(a)), Children(lua, heap, a);
    forall i | 0 <= i < |slots|
      ensures var j := LastIndex(ms, slots[i].key, |ms|);
              ComesBack(ms[j].value, Encode(lua, heap, children[i], depth - 1), depth - 1)
    {
      assert Survives(ms, slots[i].key);
      assert children[i] == slots[i].value;
    }
    if r.Some? {
      MembersImage(ms, slots, values, r.value) by {
        forall i | 0 <= i < |slots|
          ensures Survives(ms, slots[i].key) && r.value.members[i].key == slots[i].key
          ensures Image(ms[LastIndex(ms, slots[i].key, |ms|)].value, r.value.members[i].value)
        {
          assert Survives(ms, slots[i].key);
        }
      }
    }
  }

  lemma MembersImage(ms: seq<Member>, slots: seq<Slot>, values: seq<Value>, r: Json)
    requires |ms| == |values| && SlotsOf(slots, ms, values) && r.Obj? && |r.members| == |slots|
    requires forall i :: 0 <= i < |slots| ==> Survives(ms, slots[i].key)
    requires forall i :: 0 <= i < |slots| ==>
               && r.members[i].key == slots[i].key
               && Image(ms[LastIndex(ms, slots[i].key, |ms|)].value, r.members[i].value)
    ensures Image(Obj(ms), r)
  {
    hide LastIndex;
    forall key: CText
      ensures Has(r.members, key) <==> Survives(ms, key)
    {
      if Named(slots, key) {
        var i :| 0 <= i < |slots| && slots[i].key == key;
        assert r.members[i].key == key;
      }
      if Has(r.members, key) {
        var i :| 0 <= i < |r.members| && r.members[i].key == key;
        assert slots[i].key == key;
      }
    }
  }

  lemma ArrayImage(lua: Lua, heap: Heap, a: nat, items: seq<Json>, values: seq<Value>, depth: nat)
    requires Lawful(lua, heap) && a < |heap| && |items| == |values| && depth > 0
    requires heap[a] == Table(Elements(values, |values|), ArrayTag, None)
    requires forall j :: 0 <= j < |items| ==> (values[j] == Nil <==> items[j] == Null)
    requires forall j :: 0 <= j < |items| ==> ComesBack(items[j], Encode(lua, heap, values[j], depth - 1), depth - 1)
    ensures ComesBack(Arr(items), Encode(lua, heap, Ref(a), depth), depth)
  {
    hide Encode, Elements, Slots, Depth, Lawful;
    ArrayChild(lua, heap, a);
    EncodeTable(lua, heap, a, depth);
    ArrayDepth(Arr(items), depth);
    ElementsKeep(values, |values|);
    var children := Children(lua, heap, a);
    if Depth(Arr(items)) <= depth {
      forall i | 0 <= i < |children|
        ensures Encode(lua, heap, children[i], depth - 1).Some?
      {
        DeepEnough(items, depth);
        if IntKey(i + 1) in heap[a].fields {
          assert children[i] == values[i];
        } else {
          NilEncodes(lua, heap, depth - 1);
        }
      }
    }
    if forall j :: 0 <= j < |items| ==> items[j] != Null {
      assert Nil !in values;
      ChildrenOfArray(lua, heap, a, values);
    }
  }

  /** Elements are at their places, if they are not nil. */
  lemma {:induction false} ElementsKeep(values: seq<Value>, n: nat)
    requires n <= |values|
    ensures forall i :: IntKey(i) in Elements(values, n) ==>
              1 <= i <= n && Elements(values, n)[IntKey(i)] == values[i - 1]
  {
    if n > 0 {
      ElementsKeep(values, n - 1);
    }
  }

  lemma DeepEnough(items: seq<Json>, depth: nat)
    requires Depth(Arr(items)) <= depth
    ensures items != [] ==> depth > 1
  {
    if items != [] {
      ArrayDepth(Arr(items), depth);
      assert Depth(items[0]) > 0;
    }
  }

  lemma NilEncodes(lua: Lua, heap: Heap, depth: nat)
    requires depth > 0
    ensures Encode(lua, heap, Nil, depth) == Some(Null)
  {
  }

  /** Without preserve, an image of a tree comes back if the tree is not too deep: an object
      keeps exactly the keys whose last value is not null, without __kind and __jsontype. */
  lemma {:induction false} PlainImage(lua: Lua, full: Heap, v: Json, heap: Heap, depth: nat)
    requires Lawful(lua, full) && Decode(v, false, heap).1 <= full
    ensures ComesBack(v, Encode(lua, full, Decode(v, false, heap).0, depth), depth)
    decreases v, 2, 0
  {
    hide Lawful, Encode, Decode, ComesBack;
    if depth == 0 {
      DepthZero(lua, full, v, heap);
    } else if v.Obj? {
      PlainObject(lua, full, v, heap, depth);
    } else if v.Arr? {
      PlainArray(lua, full, v, heap, depth);
    } else {
      PlainLeaf(lua, full, v, heap, depth);
    }
  }

  lemma DepthZero(lua: Lua, full: Heap, v: Json, heap: Heap)
    ensures ComesBack(v, Encode(lua, full, Decode(v, false, heap).0, 0), 0)
  {
    hide Decode, Image;
  }

  lemma PlainLeaf(lua: Lua, full: Heap, v: Json, heap: Heap, depth: nat)
    requires !v.Obj? && !v.Arr? && depth > 0
    ensures ComesBack(v, Encode(lua, full, Decode(v, false, heap).0, depth), depth)
  {
    hide EncodeAll, Slots;
    if v.Str? {
      CStringOfCText(v.s);
    }
  }

  lemma {:induction false} PlainObject(lua: Lua, full: Heap, v: Json, heap: Heap, depth: nat)
    requires Lawful(lua, full) && v.Obj? && Decode(v, false, heap).1 <= full && depth > 0
    ensures ComesBack(v, Encode(lua, full, Decode(v, false, heap).0, depth), depth)
    decreases v, 1, 0
  {
    hide Lawful, Encode, ComesBack, Fields, DecodeMembers;
    var (values, grown) := DecodeMembers(v, false, heap, |v.members|);
    MembersNil(v, heap, |v.members|);
    AtEnd(grown, PlainTable(v.members, values), full);
    MembersPlain(lua, full, v, heap, |v.members|, depth - 1);
    ObjectImage(lua, full, |grown|, v.members, values, depth);
  }

  lemma {:induction false} PlainArray(lua: Lua, full: Heap, v: Json, heap: Heap, depth: nat)
    requires Lawful(lua, full) && v.Arr? && Decode(v, false, heap).1 <= full && depth > 0
    ensures ComesBack(v, Encode(lua, full, Decode(v, false, heap).0, depth), depth)
    decreases v, 1, 0
  {
    hide Lawful, Encode, ComesBack, Elements, DecodeItems;
    var (values, grown) := DecodeItems(v, false, heap, |v.items|);
    ItemsNil(v, heap, |v.items|);
    AtEnd(grown, Table(Elements(values, |v.items|), ArrayTag, None), full);
    ItemsPlain(lua, full, v, heap, |v.items|, depth - 1);
    ArrayImage(lua, full, |grown|, v.items, values, depth);
  }

  lemma {:induction false} MembersPlain(lua: Lua, full: Heap, v: Json, heap: Heap, n: nat, depth: nat)
    requires Lawful(lua, full) && v.Obj? && n <= |v.members| && DecodeMembers(v, false, heap, n).1 <= full
    ensures forall j :: 0 <= j < n ==>
              ComesBack(v.members[j].value, Encode(lua, full, DecodeMembers(v, false, heap, n).0[j], depth), depth)
    decreases v, 0, n
  {
    hide Lawful, Encode, Decode, ComesBack;
    if n > 0 {
      var grown := DecodeMembers(v, false, heap, n - 1).1;
      MembersPlain(lua, full, v, heap, n - 1, depth);
      PlainImage(lua, full, v.members[n - 1].value, grown, depth);
    }
  }

  lemma {:induction false} ItemsPlain(lua: Lua, full: Heap, v: Json, heap: Heap, n: nat, depth: nat)
    requires Lawful(lua, full) && v.Arr? && n <= |v.items| && DecodeItems(v, false, heap, n).1 <= full
    ensures forall j :: 0 <= j < n ==>
              ComesBack(v.items[j], Encode(lua, full, DecodeItems(v, false, heap, n).0[j], depth), depth)
    decreases v, 0, n
  {
    hide Lawful, Encode, Decode, ComesBack;
    if n > 0 {
      var grown := DecodeItems(v, false, heap, n - 1).1;
      ItemsPlain(lua, full, v, heap, n - 1, depth);
      PlainImage(lua, full, v.items[n - 1], grown, depth);
    }
  }
}
