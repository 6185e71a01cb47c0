/**
 Encoding arbitrary table graphs: which tables count as arrays, and which values are nested
 too deeply, those that reach a cycle above all.
 */
module JsonGraph {
  import opened Bytes
  import opened Json

  // ---------------------------------------------------------------- arrays

  function IntKeys(n: nat): set<Key> {
    set i | 1 <= i <= n :: IntKey(i)
  }

  function KeysOf(keys: seq<Key>): set<Key> {
    set k | k in keys
  }

  lemma {:induction false} CountOfInts(n: nat)
    ensures |IntKeys(n)| == n
  {
    if n > 0 {
      CountOfInts(n - 1);
      assert IntKeys(n) == IntKeys(n - 1) + {IntKey(n)};
    }
  }

  lemma {:induction false} CountOfKeys(keys: seq<Key>)
    requires forall i, j :: 0 <= i < j < |keys| ==> keys[i] != keys[j]
    ensures |KeysOf(keys)| == |keys|
    decreases |keys|
  {
    if keys != [] {
      var n := |keys| - 1;
      CountOfKeys(keys[..n]);
      assert keys == keys[..n] + [keys[n]];
      assert KeysOf(keys) == KeysOf(keys[..n]) + {keys[n]};
    }
  }

  lemma SameSize(a: set<Key>, b: set<Key>)
    requires a <= b && |a| == |b|
    ensures a == b
  {
    assert |b - a| == 0;
    assert b == a + (b - a);
  }

  /** By counting, a table without a tag is an array exactly when its keys are 1 to n for
      some positive n. */
  lemma ArrayExactly(t: Table, keys: seq<Key>)
    requires Enumerates(keys, t.fields) && t.tag == Untagged
    ensures IsArray(t, keys) <==> exists n :: n > 0 && KeysOf(keys) == IntKeys(n)
    ensures IsArray(t, keys) ==> KeysOf(keys) == IntKeys(|keys|)
  {
    CountOfKeys(keys);
    if IsArray(t, keys) {
      CountOfInts(|keys|);
      forall k | k in IntKeys(|keys|)
        ensures k in KeysOf(keys)
      {
        assert k in t.fields;
      }
      SameSize(IntKeys(|keys|), KeysOf(keys));
    }
    forall n | n > 0 && KeysOf(keys) == IntKeys(n)
      ensures IsArray(t, keys)
    {
      CountOfInts(n);
      forall i | 0 <= i < |keys|
        ensures !keys[i].StrKey?
      {
        assert keys[i] in KeysOf(keys);
      }
      forall i | 1 <= i <= |keys|
        ensures IntKey(i) in t.fields
      {
        assert IntKey(i) in KeysOf(keys);
      }
    }
  }

  /** The test as it is made: a traversal that counts, then a look at 1 to the count. */
  method TableIsArray(t: Table, keys: seq<Key>) returns (r: bool)
    requires Enumerates(keys, t.fields)
    ensures r <==> IsArray(t, keys)
    ensures t.tag == Untagged ==> (r <==> exists n :: n > 0 && KeysOf(keys) == IntKeys(n))
  {
    hide KeysOf, IntKeys, Enumerates;
    if t.tag == Untagged {
      ArrayExactly(t, keys);
    }
    match t.tag {
      case ArrayTag =>
        return true;
      case ObjectTag =>
        return false;
      case Untagged =>
    }
    var count := 0;
    while count < |keys|
      invariant 0 <= count <= |keys|
      invariant forall i :: 0 <= i < count ==> !keys[i].StrKey?
    {
      if keys[count].StrKey? {
        return false;
      }
      count := count + 1;
    }
    if count == 0 {
      return false;
    }
    for i := 1 to count + 1
      invariant forall j :: 1 <= j < i ==> IntKey(j) in t.fields
    {
      if IntKey(i) !in t.fields {
        return false;
      }
    }
    return true;
  }

  // ---------------------------------------------------------------- depth

  /** A value is encoded as part of another. */
  predicate ChildOf(lua: Lua, heap: Heap, child: Value, parent: Value) {
    parent.Ref? && parent.address < |heap| && child in Children(lua, heap, parent.address)
  }

  /** Each value of a path is encoded as part of the one before. */
  predicate Path(lua: Lua, heap: Heap, p: seq<Value>) {
    forall i :: 0 <= i < |p| - 1 ==> ChildOf(lua, heap, p[i + 1], p[i])
  }

  lemma {:induction false} TooDeep(lua: Lua, heap: Heap, p: seq<Value>, depth: nat)
    requires |p| == depth + 1 && Path(lua, heap, p)
    ensures Encode(lua, heap, p[0], depth) == None
    decreases depth
  {
    if depth > 0 {
      hide Children, EncodeAll;
      assert ChildOf(lua, heap, p[1], p[0]);
      forall i | 0 <= i < |p[1..]| - 1
        ensures ChildOf(lua, heap, p[1..][i + 1], p[1..][i])
      {
        assert ChildOf(lua, heap, p[i + 1 + 1], p[i + 1]);
      }
      TooDeep(lua, heap, p[1..], depth - 1);
      EncodeTable(lua, heap, p[0].address, depth);
      var children := Children(lua, heap, p[0].address);
      var j :| 0 <= j < |children| && children[j] == p[1];
    }
  }

  lemma LongerPath(lua: Lua, heap: Heap, v: Value, q: seq<Value>)
    requires q != [] && Path(lua, heap, q) && ChildOf(lua, heap, q[0], v)
    ensures Path(lua, heap, [v] + q)
  {
    hide ChildOf;
    var p := [v] + q;
    forall i | 0 <= i < |p| - 1
      ensures ChildOf(lua, heap, p[i + 1], p[i])
    {
      if i > 0 {
        assert ChildOf(lua, heap, q[i - 1 + 1], q[i - 1]);
      }
    }
  }

  lemma RejectedChild(lua: Lua, heap: Heap, v: Value, depth: nat) returns (child: Value)
    requires Encode(lua, heap, v, depth) == None && depth > 0
    ensures ChildOf(lua, heap, child, v) && Encode(lua, heap, child, depth - 1) == None
  {
    hide Children, EncodeAll;
    EncodeTable(lua, heap, v.address, depth);
    var children := Children(lua, heap, v.address);
    var j :| 0 <= j < |children| && Encode(lua, heap, children[j], depth - 1) == None;
    child := children[j];
  }

  lemma {:induction false} DeepPath(lua: Lua, heap: Heap, v: Value, depth: nat) returns (p: seq<Value>)
    requires Encode(lua, heap, v, depth) == None
    ensures |p| == depth + 1 && p[0] == v && Path(lua, heap, p)
    decreases depth
  {
    p := [v];
    if depth > 0 {
      hide Encode, ChildOf, Path;
      var child := RejectedChild(lua, heap, v, depth);
      var q := DeepPath(lua, heap, child, depth - 1);
      p := [v] + q;
      LongerPath(lua, heap, v, q);
    } else {
      assert Path(lua, heap, p);
    }
  }

  /** A value is rejected at a depth exactly when as many steps lead down from it. */
  lemma RejectedIffDeep(lua: Lua, heap: Heap, v: Value, depth: nat)
    ensures Encode(lua, heap, v, depth) == None <==>
            exists p :: |p| == depth + 1 && p[0] == v && Path(lua, heap, p)
  {
    hide Encode, Path;
    if Encode(lua, heap, v, depth) == None {
      var p := DeepPath(lua, heap, v, depth);
    }
    forall p | |p| == depth + 1 && p[0] == v && Path(lua, heap, p)
      ensures Encode(lua, heap, v, depth) == None
    {
      TooDeep(lua, heap, p, depth);
    }
  }

  /** The k-th place of a walk that goes from i to j and from there to i over and over. */
  function Place(i: nat, j: nat, k: nat): nat
    requires i < j
    decreases k
  {
    if k < j then k else Place(i, j, k - (j - i))
  }

  lemma {:induction false} PlaceSteps(i: nat, j: nat, k: nat)
    requires i < j
    ensures Place(i, j, k) < j
    ensures Place(i, j, k + 1) == Place(i, j, k) + 1 || (Place(i, j, k) == j - 1 && Place(i, j, k + 1) == i)
    decreases k
  {
    if k >= j {
      PlaceSteps(i, j, k - (j - i));
    }
  }

  /** A value from which a cycle can be reached is rejected, whatever the depth: encoding
      ends on every table graph. */
  lemma CycleRejected(lua: Lua, heap: Heap, p: seq<Value>, i: nat, j: nat, depth: nat)
    requires Path(lua, heap, p) && i < j < |p| && p[i] == p[j]
    ensures Encode(lua, heap, p[0], depth) == None
  {
    hide Encode, ChildOf;
    forall k: nat | true
      ensures Place(i, j, k) < j
    {
      PlaceSteps(i, j, k);
    }
    var q := seq(depth + 1, k requires 0 <= k => p[Place(i, j, k)]);
    forall k | 0 <= k < |q| - 1
      ensures ChildOf(lua, heap, q[k + 1], q[k])
    {
      PlaceSteps(i, j, k);
      var at := Place(i, j, k);
      assert ChildOf(lua, heap, p[at + 1], p[at]);
    }
    TooDeep(lua, heap, q, depth);
  }
}
