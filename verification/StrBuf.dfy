/**
 The growing byte buffer that the process layer fills: capacity doubles from 4096, and a
 NUL always follows the contents.
 */
module StrBufs {
  import opened Bytes

  const FIRST_CAPACITY: nat := 4096

  /** The capacity after making room for a number of bytes; the first one is 4096. */
  function Grown(capacity: nat, required: nat): nat {
    Doubled(if capacity == 0 then FIRST_CAPACITY else capacity, required)
  }

  class StrBuf {
    var data: array?<Byte>
    var length: nat

    ghost predicate Valid()
      reads this, data
    {
      if data == null then length == 0 else length < data.Length && data[length] == 0
    }

    ghost function Contents(): (s: Text)
      reads this, data
      requires Valid()
      ensures |s| == length
    {
      if data == null then [] else data[..length]
    }

    function Capacity(): nat
      reads this
    {
      if data == null then 0 else data.Length
    }

    constructor ()
      ensures Valid() && Contents() == [] && data == null
    {
      data, length := null, 0;
    }

    /** Appends bytes, moving to a larger allocation only when they do not fit. */
    method Append(s: Text)
      requires Valid()
      modifies this, data
      ensures Valid() && Contents() == old(Contents()) + s
      ensures data != null && (data == old(data) || fresh(data))
      ensures data == old(data) <==> old(length) + |s| + 1 <= old(Capacity())
      ensures Capacity() == Grown(old(Capacity()), old(length) + |s| + 1)
    {
      var required := length + |s| + 1;
      if data == null || required > data.Length {
        Grow(required);
      }
      var k := length;
      forall i | 0 <= i < |s| {
        data[k + i] := s[i];
      }
      length := length + |s|;
      data[length] := 0;
      assert data[..k] == old(Contents());
      assert forall i :: 0 <= i < |s| ==> data[..length][k + i] == s[i];
      assert data[..length] == data[..k] + s;
    }

    method Grow(required: nat)
      requires length < required && Capacity() < required
      requires data != null ==> length <= data.Length
      modifies this
      ensures length == old(length)
      ensures fresh(data) && data != null && required <= data.Length
      ensures data.Length == Grown(old(Capacity()), required)
      ensures old(data) != null ==> data[..length] == old(data[..length])
    {
      var next := if data == null then FIRST_CAPACITY else data.Length;
      if next == 0 {
        next := FIRST_CAPACITY;
      }
      while required > next
        invariant next > 0 && Doubled(next, required) == Grown(Capacity(), required)
        decreases required - next
      {
        next := next * 2;
      }
      if data == null {
        data := new Byte[next](i => 0);
      } else {
        data := Moved(data, length, next);
      }
    }
  }
}
