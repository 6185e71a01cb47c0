/** Byte strings, as the C code and Lua both see them: finite and NUL-transparent. */
module Bytes {
  type Byte = b: int | 0 <= b < 0x100
  type Text = seq<Byte>

  const ESC: Byte := 0x1b
  const BEL: Byte := 0x07
  const TAB: Byte := 0x09
  const SPACE: Byte := 0x20
  const NEWLINE: Byte := 0x0a
  const CARRIAGE_RETURN: Byte := 0x0d

  /** A Lua string as C reads it: up to the first NUL. */
  function CString(t: Text): (s: Text)
    ensures forall k :: 0 <= k < |s| ==> s[k] != 0
  {
    if t == [] || t[0] == 0 then [] else [t[0]] + CString(t[1..])
  }

  /** A capacity doubled until it suffices. */
  function Doubled(capacity: nat, required: nat): (next: nat)
    requires capacity > 0
    ensures required <= next && (capacity < next ==> next < 2 * required)
    decreases required - capacity
  {
    if required <= capacity then capacity else Doubled(2 * capacity, required)
  }

  /** A new allocation with the first n bytes of an old one. */
  method Moved(from: array<Byte>, n: nat, size: nat) returns (to: array<Byte>)
    requires n <= from.Length && n <= size
    ensures fresh(to) && to.Length == size && to[..n] == from[..n]
  {
    to := new Byte[size](i => 0);
    forall i | 0 <= i < n {
      to[i] := from[i];
    }
  }

  datatype Option<+T> = None | Some(value: T)
}

/** Sequence equalities that proofs call by name to keep the solver away from them. */
module Seqs {
  lemma ConsAppend<T>(a: seq<T>, b: seq<T>)
    requires a != []
    ensures a + b == [a[0]] + (a[1..] + b)
    ensures (a + b)[0] == a[0] && (a + b)[1..] == a[1..] + b
  {
  }

  lemma Assoc<T>(a: seq<T>, b: seq<T>, c: seq<T>)
    ensures a + b + c == a + (b + c)
  {
  }

  lemma EmptyFront<T>(a: seq<T>, b: seq<T>)
    requires a == []
    ensures a + b == b
  {
  }

  lemma EmptyBack<T>(a: seq<T>, b: seq<T>)
    requires b == []
    ensures a + b == a
  {
  }

  lemma DropDrop<T>(a: seq<T>, i: nat, n: nat)
    requires i + n <= |a|
    ensures a[i..][n..] == a[i + n..]
  {
  }

  lemma Snoc<T>(a: seq<T>)
    requires a != []
    ensures a == a[..|a| - 1] + [a[|a| - 1]]
  {
  }
}

/** Division, for proofs that call it by name. */
module Numbers {
  lemma Divided(n: int, q: int, r: int, d: int)
    requires d > 0 && n == q * d + r && 0 <= r < d
    ensures n / d == q && n % d == r
  {
    var e := n / d - q;
    assert n == n / d * d + n % d;
    assert e * d == r - n % d;
    assert e >= 1 ==> e * d >= d;
    assert e <= -1 ==> e * d <= -d;
  }
}
