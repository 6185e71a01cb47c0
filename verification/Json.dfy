/**
 JSON trees and Lua tables: decoding into the Lua heap, encoding from it, and when the one
 undoes the other.
 */
module Json {
  import opened Bytes

  // ---------------------------------------------------------------- both sides

  type CText = t: Text | 0 !in t

  datatype Json =
    | Null
    | Bool(b: bool)
    | Number(d: real)
    | Str(s: CText)
    | Arr(items: seq<Json>)
    | Obj(members: seq<Member>)
  datatype Member = Member(key: CText, value: Json)

  /** A Lua value; Opaque is anything that JSON has no word for, the null mark included. */
  datatype Value =
    | Nil
    | Boolean(b: bool)
    | Integer(i: int)
    | Float(d: real)
    | String(s: Text)
    | Ref(address: nat)
    | Opaque

  datatype Key = StrKey(s: Text) | IntKey(i: int) | OtherKey(id: nat)

  /** What the metatable says: the type tag and the order of keys, as far as each is there.
      An entry of the order is the text that Lua makes of it, numbers included, or None when
      it is neither a string nor a number. */
  datatype Tag = Untagged | ArrayTag | ObjectTag
  datatype Table = Table(fields: map<Key, Value>, tag: Tag, order: Option<seq<Option<Text>>>)

  type Heap = seq<Table>

  /** What the language leaves open: in which order a table is traversed, and which border
      its length is when there are several. */
  datatype Lua = Lua(next: nat -> seq<Key>, rawlen: nat -> nat)

  ghost predicate Enumerates(keys: seq<Key>, fields: map<Key, Value>) {
    && (forall k :: k in keys <==> k in fields)
    && forall i, j :: 0 <= i < j < |keys| ==> keys[i] != keys[j]
  }

  predicate Border(n: nat, fields: map<Key, Value>) {
    (n == 0 || IntKey(n) in fields) && IntKey(n + 1) !in fields
  }

  ghost predicate Lawful(lua: Lua, heap: Heap) {
    forall a: nat :: a < |heap| ==> Enumerates(lua.next(a), heap[a].fields) && Border(lua.rawlen(a), heap[a].fields)
  }

  function Get(t: Table, k: Key): Value {
    if k in t.fields then t.fields[k] else Nil
  }

  // ---------------------------------------------------------------- decoding

  /** Assigning nil removes the key. */
  function SetField(fields: map<Key, Value>, k: Key, v: Value): map<Key, Value> {
    if v == Nil then fields - {k} else fields[k := v]
  }

  /** A number becomes an integer when it is one. */
  function NumberValue(d: real): Value {
    if -9223372036854775808.0 <= d < 9223372036854775808.0 && d.Floor as real == d then Integer(d.Floor) else Float(d)
  }

  /** Decoding puts a value's tables into the heap, inner ones first. */
  function Decode(v: Json, preserve: bool, heap: Heap): (r: (Value, Heap))
    ensures heap <= r.1
    ensures r.0.Ref? ==> r.0.address < |r.1|
    decreases v, 1, 0
  {
    match v
    case Obj(members) =>
      var (values, grown) := DecodeMembers(v, preserve, heap, |members|);
      var keys := seq(|members|, i requires 0 <= i < |members| => Some(members[i].key));
      var order := if preserve then Some(keys) else None;
      var table := Table(Fields(members, values, |members|), if preserve then ObjectTag else Untagged, order);
      (Ref(|grown|), grown + [table])
    case Arr(items) =>
      var (values, grown) := DecodeItems(v, preserve, heap, |items|);
      (Ref(|grown|), grown + [Table(Elements(values, |items|), ArrayTag, None)])
    case Str(s) => (String(s), heap)
    case Bool(b) => (Boolean(b), heap)
    case Number(d) => (NumberValue(d), heap)
    case Null => (if preserve then Opaque else Nil, heap)
  }

  /** The first n items, one after the other. */
  function DecodeItems(v: Json, preserve: bool, heap: Heap, n: nat): (r: (seq<Value>, Heap))
    requires v.Arr? && n <= |v.items|
    ensures |r.0| == n && heap <= r.1
    decreases v, 0, n
  {
    if n == 0 then ([], heap)
    else
      var (values, grown) := DecodeItems(v, preserve, heap, n - 1);
      var (value, more) := Decode(v.items[n - 1], preserve, grown);
      (values + [value], more)
  }

  function DecodeMembers(v: Json, preserve: bool, heap: Heap, n: nat): (r: (seq<Value>, Heap))
    requires v.Obj? && n <= |v.members|
    ensures |r.0| == n && heap <= r.1
    decreases v, 0, n
  {
    if n == 0 then ([], heap)
    else
      var (values, grown) := DecodeMembers(v, preserve, heap, n - 1);
      var (value, more) := Decode(v.members[n - 1].value, preserve, grown);
      (values + [value], more)
  }

  /** The fields after assigning the first n members one after the other. */
  function Fields(members: seq<Member>, values: seq<Value>, n: nat): map<Key, Value>
    requires n <= |members| == |values|
  {
    if n == 0 then map[]
    else SetField(Fields(members, values, n - 1), StrKey(members[n - 1].key), values[n - 1])
  }

  function Elements(values: seq<Value>, n: nat): map<Key, Value>
    requires n <= |values|
  {
    if n == 0 then map[] else SetField(Elements(values, n - 1), IntKey(n), values[n - 1])
  }

  // ---------------------------------------------------------------- encoding

  const KIND: CText := [0x5f, 0x5f, 0x6b, 0x69, 0x6e, 0x64]
  const JSONTYPE: CText := [0x5f, 0x5f, 0x6a, 0x73, 0x6f, 0x6e, 0x74, 0x79, 0x70, 0x65]

  /** The traversal meets no string key before it ends, and 1 to the number of keys are there. */
  function CountsAsArray(t: Table, keys: seq<Key>): bool {
    && (forall i :: 0 <= i < |keys| ==> !keys[i].StrKey?)
    && |keys| > 0
    && forall i :: 1 <= i <= |keys| ==> IntKey(i) in t.fields
  }

  function IsArray(t: Table, keys: seq<Key>): bool {
    match t.tag
    case ArrayTag => true
    case ObjectTag => false
    case Untagged => CountsAsArray(t, keys)
  }

  /** A member to encode: its name, and the value that stands for it. */
  datatype Slot = Slot(key: CText, value: Value)

  predicate Named(slots: seq<Slot>, key: CText) {
    exists i :: 0 <= i < |slots| && slots[i].key == key
  }

  /** The first n entries of the key order that name a field, each once. */
  function OrderedSlots(t: Table, order: seq<Option<Text>>, n: nat): seq<Slot>
    requires n <= |order|
  {
    if n == 0 then []
    else
      var slots := OrderedSlots(t, order, n - 1);
      if order[n - 1].None? then slots
      else
        var key := AsCText(order[n - 1].value);
        if Named(slots, key) || Get(t, StrKey(key)) == Nil then slots
        else slots + [Slot(key, Get(t, StrKey(key)))]
  }

  /** Then the first n keys of the traversal: strings other than metadata, not seen yet. */
  function TraversedSlots(t: Table, keys: seq<Key>, n: nat, before: seq<Slot>): seq<Slot>
    requires n <= |keys|
  {
    if n == 0 then before
    else
      var slots := TraversedSlots(t, keys, n - 1, before);
      if !keys[n - 1].StrKey? then slots
      else
        var key := AsCText(keys[n - 1].s);
        if key == KIND || key == JSONTYPE || Named(slots, key) then slots
        else slots + [Slot(key, Get(t, keys[n - 1]))]
  }

  function Slots(t: Table, keys: seq<Key>): seq<Slot> {
    TraversedSlots(t, keys, |keys|, if t.order.Some? then OrderedSlots(t, t.order.value, |t.order.value|) else [])
  }

  /** The values that encoding a table encodes in turn. */
  function Children(lua: Lua, heap: Heap, a: nat): seq<Value>
    requires a < |heap|
  {
    if IsArray(heap[a], lua.next(a)) then seq(lua.rawlen(a), i => Get(heap[a], IntKey(i + 1)))
    else
      var slots := Slots(heap[a], lua.next(a));
      seq(|slots|, i requires 0 <= i < |slots| => slots[i].value)
  }

  /** The encoding of a value, or none when it is nested too deeply. */
  function Encode(lua: Lua, heap: Heap, v: Value, depth: nat): Option<Json>
    decreases depth, 0, 0
  {
    if depth == 0 then None
    else
      match v
      case String(s) => Some(Str(AsCText(s)))
      case Boolean(b) => Some(Bool(b))
      case Integer(i) => Some(Number(i as real))
      case Float(d) => Some(Number(d))
      case Nil => Some(Null)
      case Opaque => Some(Null)
      case Ref(a) =>
        if a >= |heap| then Some(Null)
        else
          match EncodeAll(lua, heap, Children(lua, heap, a), |Children(lua, heap, a)|, depth - 1)
          case None => None
          case Some(items) =>
            if IsArray(heap[a], lua.next(a)) then Some(Arr(items))
            else
              var slots := Slots(heap[a], lua.next(a));
              Some(Obj(seq(|slots|, i requires 0 <= i < |slots| => Member(slots[i].key, items[i]))))
  }

  /** The first n values, or none as soon as one of them fails. */
  function EncodeAll(lua: Lua, heap: Heap, values: seq<Value>, n: nat, depth: nat): (r: Option<seq<Json>>)
    requires n <= |values|
    ensures r.Some? ==> |r.value| == n
    decreases depth, 1, n
  {
    if n == 0 then Some([])
    else
      var items := EncodeAll(lua, heap, values, n - 1, depth);
      if items.None? then None
      else
        var item := Encode(lua, heap, values[n - 1], depth);
        if item.None? then None else Some(items.value + [item.value])
  }

  /** A Lua string where C wants one. */
  function AsCText(s: Text): CText {
    CString(s)
  }

  lemma {:induction false} CStringOfCText(s: Text)
    requires 0 !in s
    ensures CString(s) == s
  {
    if s != [] {
      assert s[0] in s;
      assert forall b :: b in s[1..] ==> b in s;
      CStringOfCText(s[1..]);
    }
  }

  lemma {:induction false} EncodeAllIs(lua: Lua, heap: Heap, values: seq<Value>, n: nat, depth: nat)
    requires n <= |values|
    ensures var r := EncodeAll(lua, heap, values, n, depth);
            && (r.Some? <==> forall i :: 0 <= i < n ==> Encode(lua, heap, values[i], depth).Some?)
            && (r.Some? ==> forall i :: 0 <= i < n ==> r.value[i] == Encode(lua, heap, values[i], depth).value)
  {
    hide Encode;
    if n > 0 {
      EncodeAllIs(lua, heap, values, n - 1, depth);
    }
  }

  /** A table is encoded when all its children are, one level further down. */
  lemma EncodeTable(lua: Lua, heap: Heap, a: nat, depth: nat)
    requires a < |heap| && depth > 0
    ensures var r, children := Encode(lua, heap, Ref(a), depth), Children(lua, heap, a);
            && (r.Some? <==> forall i :: 0 <= i < |children| ==> Encode(lua, heap, children[i], depth - 1).Some?)
            && (r.Some? && IsArray(heap[a], lua.next(a)) ==>
                  && r.value.Arr? && |r.value.items| == |children|
                  && forall i :: 0 <= i < |children| ==>
                       r.value.items[i] == Encode(lua, heap, children[i], depth - 1).value)
            && (r.Some? && !IsArray(heap[a], lua.next(a)) ==>
                  var slots := Slots(heap[a], lua.next(a));
                  && r.value.Obj? && |r.value.members| == |children| == |slots|
                  && forall i :: 0 <= i < |children| ==>
                       r.value.members[i] == Member(slots[i].key, Encode(lua, heap, children[i], depth - 1).value))
  {
    hide Slots, IsArray;
    EncodeAllIs(lua, heap, Children(lua, heap, a), |Children(lua, heap, a)|, depth - 1);
  }
}
