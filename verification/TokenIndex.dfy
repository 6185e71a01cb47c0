/**
 The session's prefix sums of token estimates, and the count of recent messages that fit a
 target: the binary search against the walk back from the end.
 */
module TokenIndex {
  import opened Bytes
  import opened Seqs

  /** Sizes are counted modulo this. */
  const SIZE: nat := 0x1_0000_0000_0000_0000

  // ---------------------------------------------------------------- sums

  function Sum(es: seq<nat>): nat {
    if es == [] then 0 else Sum(es[..|es| - 1]) + es[|es| - 1]
  }

  lemma {:induction false} SumAppend(a: seq<nat>, b: seq<nat>)
    ensures Sum(a + b) == Sum(a) + Sum(b)
    decreases |b|
  {
    if b == [] {
      EmptyBack(a, b);
    } else {
      assert (a + b)[..|a + b| - 1] == a + b[..|b| - 1];
      SumAppend(a, b[..|b| - 1]);
    }
  }

  lemma PrefixAndRest(es: seq<nat>, i: nat)
    requires i <= |es|
    ensures Sum(es) == Sum(es[..i]) + Sum(es[i..])
  {
    assert es == es[..i] + es[i..];
    SumAppend(es[..i], es[i..]);
  }

  lemma PrefixesGrow(es: seq<nat>, i: nat, j: nat)
    requires i <= j <= |es|
    ensures Sum(es[..i]) <= Sum(es[..j])
  {
    assert es[..j][..i] == es[..i];
    PrefixAndRest(es[..j], i);
  }

  /** The sum of the last k estimates. */
  function TailSum(es: seq<nat>, k: nat): nat
    requires k <= |es|
  {
    Sum(es[|es| - k..])
  }

  lemma TailsGrow(es: seq<nat>, i: nat, j: nat)
    requires i <= j <= |es|
    ensures TailSum(es, i) <= TailSum(es, j)
  {
    PrefixAndRest(es, |es| - i);
    PrefixAndRest(es, |es| - j);
    PrefixesGrow(es, |es| - j, |es| - i);
  }

  // ---------------------------------------------------------------- the simple form

  /** How many of the last messages the walk back keeps, having kept k: it stops before the
      target would be exceeded, but not before it has one. */
  function Walk(es: seq<nat>, target: int, k: nat): nat
    requires k <= |es|
    decreases |es| - k
  {
    if k == |es| || (k > 0 && TailSum(es, k + 1) > target) then k else Walk(es, target, k + 1)
  }

  /** The largest suffix within the target, but at least one message when there is one. */
  predicate LargestWithin(es: seq<nat>, target: int, k: nat) {
    && k <= |es| && (es != [] ==> k > 0)
    && (k > 1 ==> TailSum(es, k) <= target)
    && (0 < k < |es| ==> TailSum(es, k + 1) > target)
  }

  lemma {:induction false} WalkKeepsLargest(es: seq<nat>, target: int, k: nat)
    requires k <= |es| && (k > 1 ==> TailSum(es, k) <= target)
    ensures LargestWithin(es, target, Walk(es, target, k))
    decreases |es| - k
  {
    hide TailSum;
    if !(k == |es| || (k > 0 && TailSum(es, k + 1) > target)) {
      WalkKeepsLargest(es, target, k + 1);
    }
  }

  lemma OnlyLargest(es: seq<nat>, target: int, k: nat, m: nat)
    requires LargestWithin(es, target, k) && LargestWithin(es, target, m)
    ensures k == m
  {
    hide TailSum;
    if k < m {
      TailsGrow(es, k + 1, m);
    } else if m < k {
      TailsGrow(es, m + 1, k);
    }
  }

  /** The walk as the fallback makes it. */
  method WalkBack(es: seq<nat>, target: int) returns (count: nat)
    ensures count == Walk(es, target, 0)
  {
    hide TailSum;
    var total := 0;
    count := 0;
    NoTail(es);
    for i := |es| downto 0
      invariant count == |es| - i && total == TailSum(es, count)
      invariant Walk(es, target, count) == Walk(es, target, 0)
    {
      OneMoreInTail(es, count);
      if count > 0 && total + es[i] > target {
        break;
      }
      total := total + es[i];
      count := count + 1;
    }
  }

  lemma NoTail(es: seq<nat>)
    ensures TailSum(es, 0) == 0
  {
  }

  lemma OneMoreInTail(es: seq<nat>, k: nat)
    requires k < |es|
    ensures TailSum(es, k + 1) == TailSum(es, k) + es[|es| - k - 1]
  {
    var i := |es| - k - 1;
    assert es[i..] == [es[i]] + es[i + 1..];
    SumAppend([es[i]], es[i + 1..]);
    assert Sum([es[i]]) == Sum([]) + es[i];
  }

  // ---------------------------------------------------------------- the index

  datatype Message = Message(role: nat, text: Option<Text>, data: Option<Text>, estimate: nat)

  function Estimates(ms: seq<Message>): (es: seq<nat>)
    ensures |es| == |ms|
  {
    seq(|ms|, i requires 0 <= i < |ms| => ms[i].estimate)
  }

  /** Every entry of the index is the sum of the estimates before it, modulo the size. */
  ghost predicate Indexed(prefix: seq<nat>, es: seq<nat>) {
    |prefix| > |es| && forall i :: 0 <= i <= |es| ==> prefix[i] == Sum(es[..i]) % SIZE
  }

  lemma IndexedNext(prefix: seq<nat>, es: seq<nat>, e: nat)
    requires Indexed(prefix, es) && |prefix| > |es| + 1
    ensures Indexed(prefix[|es| + 1 := (prefix[|es|] + e) % SIZE], es + [e])
  {
    var n, next, longer := |es|, prefix[|es| + 1 := (prefix[|es|] + e) % SIZE], es + [e];
    assert es[..n] == es && longer[..n + 1] == longer && longer[..n] == es;
    forall i | 0 <= i <= n
      ensures next[i] == Sum(longer[..i]) % SIZE
    {
      assert longer[..i] == es[..i];
    }
  }

  lemma IndexedCopy(prefix: seq<nat>, copy: seq<nat>, es: seq<nat>)
    requires Indexed(prefix, es) && |copy| > |es| && copy[..|es| + 1] == prefix[..|es| + 1]
    ensures Indexed(copy, es)
  {
    forall i | 0 <= i <= |es|
      ensures copy[i] == prefix[i]
    {
      assert copy[..|es| + 1][i] == prefix[..|es| + 1][i];
    }
  }

  /** Subtraction of sizes. */
  function Minus(a: nat, b: nat): nat {
    (a - b) % SIZE
  }

  /** The estimates from a message on, by subtraction: exact even after the sums wrapped. */
  lemma RangeBySubtraction(prefix: seq<nat>, es: seq<nat>, start: nat)
    requires Indexed(prefix, es) && 1 <= start <= |es|
    ensures Minus(prefix[|es|], prefix[start - 1]) == Sum(es[start - 1..]) % SIZE
  {
    var a, b := Sum(es[..start - 1]), Sum(es[start - 1..]);
    PrefixAndRest(es, start - 1);
    assert es[..|es|] == es;
    SubtractModulo(a, b);
  }

  lemma SubtractModulo(a: nat, b: nat)
    ensures ((a + b) % SIZE - a % SIZE) % SIZE == b % SIZE
  {
  }

  class Session {
    var messages: array?<Message>
    var prefix: array?<nat>
    var count: nat
    var capacity: nat
    const maxCapacity: nat

    ghost predicate Valid()
      reads this, messages, prefix
    {
      && count <= capacity
      && (capacity == 0 <==> messages == null) && (capacity == 0 <==> prefix == null)
      && (messages != null ==> messages.Length == capacity)
      && (prefix != null ==> prefix.Length == capacity + 1 && Indexed(prefix[..], Estimates(messages[..count])))
    }

    ghost function Contents(): seq<Message>
      reads this, messages, prefix
      requires Valid()
    {
      if messages == null then [] else messages[..count]
    }

    constructor (maxCapacity: nat)
      ensures Valid() && Contents() == [] && capacity == 0 && this.maxCapacity == maxCapacity
    {
      messages, prefix, count, capacity := null, null, 0, 0;
      this.maxCapacity := maxCapacity;
    }

    method Clear()
      modifies this
      ensures Valid() && Contents() == [] && capacity == 0
    {
      messages, prefix, count, capacity := null, null, 0, 0;
    }

    /** Moves both arrays to twice the room; the index may not outgrow what can be counted. */
    method Reserve() returns (ok: bool)
      requires Valid() && count == capacity
      modifies this
      ensures Valid() && Contents() == old(Contents())
      ensures ok <==> (if old(capacity) == 0 then 8 else 2 * old(capacity)) <= maxCapacity
      ensures ok ==> capacity == if old(capacity) == 0 then 8 else 2 * old(capacity)
      ensures if ok then count < capacity && fresh(messages) && fresh(prefix)
              else messages == old(messages) && prefix == old(prefix) && capacity == old(capacity)
    {
      var room := 8;
      if capacity > 0 {
        if capacity > maxCapacity / 2 {
          return false;
        }
        room := capacity * 2;
      }
      if room > maxCapacity {
        return false;
      }
      var newMessages := new Message[room](i => Message(0, None, None, 0));
      var newPrefix := new nat[room + 1](i => 0);
      ghost var kept := Contents();
      if count > 0 {
        var n, ms, ps := count, messages, prefix;
        forall i | 0 <= i < n {
          newMessages[i] := ms[i];
        }
        forall i | 0 <= i < n + 1 {
          newPrefix[i] := ps[i];
        }
        assert newPrefix[..][..n + 1] == ps[..][..n + 1];
        IndexedCopy(ps[..], newPrefix[..], Estimates(kept));
      } else {
        newPrefix[0] := 0;
      }
      assert newMessages[..count] == kept;
      messages, prefix, capacity := newMessages, newPrefix, room;
      ok := true;
    }

    method Append(message: Message) returns (ok: bool)
      requires Valid()
      modifies this, messages, prefix
      ensures Valid() && Contents() == old(Contents()) + if ok then [message] else []
      ensures ok <==> old(count) < old(capacity)
                      || (if old(capacity) == 0 then 8 else 2 * old(capacity)) <= maxCapacity
    {
      hide Indexed;
      ok := true;
      if count == capacity {
        ok := Reserve();
        if !ok {
          EmptyBack(Contents(), []);
          return;
        }
      }
      ghost var before, index := Contents(), prefix[..];
      messages[count] := message;
      var sum := (prefix[count] + message.estimate) % SIZE;
      prefix[count + 1] := sum;
      IndexedNext(index, Estimates(before), message.estimate);
      count := count + 1;
      assert messages[..count] == before + [message];
      assert Estimates(before + [message]) == Estimates(before) + [message.estimate];
    }

    /** The estimates from a message on, counted from one; modulo the size. */
    method TokenEstimateFrom(start: nat) returns (r: nat)
      requires Valid()
      ensures var es := Estimates(Contents());
              var from := if start < 1 then 1 else start;
              r == if from > |es| then 0 else Sum(es[from - 1..]) % SIZE
    {
      hide Sum, Indexed, Minus;
      if count == 0 || prefix == null {
        return 0;
      }
      var from := if start < 1 then 1 else start;
      if from > count {
        return 0;
      }
      RangeBySubtraction(prefix[..], Estimates(Contents()), from);
      r := Minus(prefix[count], prefix[from - 1]);
    }

    /** The binary search returns what the walk back returns, as long as the sum did not
        wrap; all messages whenever the total, wrapped or not, is within the target; and in
        any case a count that there is. */
    method KeepRecent(target: nat) returns (r: nat)
      requires Valid()
      ensures var es := Estimates(Contents());
              && (es != [] ==> 0 < r <= |es|)
              && (Sum(es) % SIZE <= target ==> r == |es|)
              && (Sum(es) < SIZE ==> r == Walk(es, target, 0) && LargestWithin(es, target, r))
    {
      hide LargestWithin, Walk, Sum;
      ghost var es := Estimates(Contents());
      WalkKeepsLargest(es, target, 0);
      if count == 0 || prefix == null {
        NothingKept(es, target);
        return 0;
      }
      ghost var fits := Sum(es) < SIZE;
      TotalModulo(prefix[..], es);
      if fits {
        ExactPrefix(prefix[..], es);
      }
      var total := prefix[count];
      if target >= total {
        if fits {
          AllFits(es, target);
          OnlyLargest(es, target, count, Walk(es, target, 0));
        }
        return count;
      }
      var threshold := total - target;
      var lo, hi := 0, count;
      while lo < hi
        invariant 0 <= lo <= hi <= count
        invariant fits ==> forall i :: 0 <= i < lo ==> Sum(es[..i]) < threshold
        invariant fits && hi < count ==> Sum(es[..hi]) >= threshold
      {
        var mid := lo + (hi - lo) / 2;
        if prefix[mid] < threshold {
          if fits {
            forall i | 0 <= i <= mid
              ensures Sum(es[..i]) < threshold
            {
              PrefixesGrow(es, i, mid);
            }
          }
          lo := mid + 1;
        } else {
          hi := mid;
        }
      }
      var start := lo + 1;
      if start > count {
        start := count;
      }
      r := count - start + 1;
      if fits {
        LeastIsLargest(es, target, lo);
        OnlyLargest(es, target, r, Walk(es, target, 0));
      }
    }
  }

  lemma TotalModulo(prefix: seq<nat>, es: seq<nat>)
    requires Indexed(prefix, es)
    ensures prefix[|es|] == Sum(es) % SIZE
  {
    assert es[..|es|] == es;
  }

  lemma NothingKept(es: seq<nat>, target: int)
    requires es == []
    ensures Walk(es, target, 0) == 0 && LargestWithin(es, target, 0)
  {
  }

  lemma ExactPrefix(prefix: seq<nat>, es: seq<nat>)
    requires Indexed(prefix, es) && Sum(es) < SIZE
    ensures forall i :: 0 <= i <= |es| ==> prefix[i] == Sum(es[..i])
    ensures prefix[|es|] == Sum(es)
  {
    hide Sum;
    assert es[..|es|] == es;
    forall i | 0 <= i <= |es|
      ensures prefix[i] == Sum(es[..i])
    {
      PrefixesGrow(es, i, |es|);
      SmallModulo(Sum(es[..i]));
    }
  }

  lemma SmallModulo(n: nat)
    requires n < SIZE
    ensures n % SIZE == n
  {
  }

  lemma AllFits(es: seq<nat>, target: int)
    requires es != [] && Sum(es) <= target
    ensures LargestWithin(es, target, |es|)
  {
    assert es[0..] == es;
  }

  /** The least prefix that reaches the threshold leaves the largest suffix that fits. */
  lemma LeastIsLargest(es: seq<nat>, target: nat, lo: nat)
    requires lo <= |es| && es != [] && target < Sum(es)
    requires forall i :: 0 <= i < lo ==> Sum(es[..i]) < Sum(es) - target
    requires lo < |es| ==> Sum(es[..lo]) >= Sum(es) - target
    ensures LargestWithin(es, target, if lo == |es| then 1 else |es| - lo)
  {
    hide Sum;
    var k := if lo == |es| then 1 else |es| - lo;
    PrefixAndRest(es, |es| - k);
    if k < |es| {
      PrefixAndRest(es, |es| - k - 1);
    }
  }

  // ---------------------------------------------------------------- the Lua side

  /** Where Lua calls the index, a negative target counts as zero. */
  function IndexTarget(target: int): nat {
    if target < 0 then 0 else target
  }

  /** For a negative target the two differ exactly when the last two messages count nothing:
      the walk keeps one of them, and the index as many as count nothing. */
  lemma NegativeTargets(es: seq<nat>, target: int)
    requires target < 0
    ensures Walk(es, IndexTarget(target), 0) == Walk(es, target, 0) <==> |es| < 2 || TailSum(es, 2) > 0
  {
    hide TailSum, Sum;
    var few := if |es| < 1 then 0 else 1;
    WalkKeepsLargest(es, target, 0);
    WalkKeepsLargest(es, 0, 0);
    assert LargestWithin(es, target, few);
    OnlyLargest(es, target, few, Walk(es, target, 0));
    if |es| < 2 || TailSum(es, 2) > 0 {
      assert LargestWithin(es, 0, few);
      OnlyLargest(es, 0, few, Walk(es, 0, 0));
    }
  }

  /** Two messages that count nothing, and a target of minus one. */
  lemma NegativeTargetDiffers()
    ensures Walk([0, 0], IndexTarget(-1), 0) != Walk([0, 0], -1, 0)
  {
    hide TailSum, Sum, Walk;
    var es: seq<nat> := [0, 0];
    NoTail(es);
    OneMoreInTail(es, 0);
    OneMoreInTail(es, 1);
    NegativeTargets(es, -1);
  }

  lemma TargetsAgree(es: seq<nat>, target: int)
    requires target >= 0
    ensures Walk(es, IndexTarget(target), 0) == Walk(es, target, 0)
  {
  }

  /** Where the total is within the target, the index keeps every message; that is what the
      walk keeps if and only if the sum did not wrap. */
  lemma WrapDecides(es: seq<nat>, target: nat)
    requires (forall e :: e in es ==> e < SIZE) && target < SIZE && Sum(es) % SIZE <= target
    ensures |es| == Walk(es, target, 0) <==> Sum(es) < SIZE
  {
    hide Sum;
    WalkKeepsLargest(es, target, 0);
    if Sum(es) < SIZE {
      SmallModulo(Sum(es));
      if es == [] {
        NothingKept(es, target);
      } else {
        AllFits(es, target);
        OnlyLargest(es, target, |es|, Walk(es, target, 0));
      }
    } else {
      FewAreSmall(es);
      assert es[0..] == es;
    }
  }

  lemma FewAreSmall(es: seq<nat>)
    requires forall e :: e in es ==> e < SIZE
    ensures |es| < 2 ==> Sum(es) < SIZE
  {
    if |es| == 1 {
      assert es[0] in es && es[..0] == [];
    }
  }

  /** Three messages with estimates that the Lua binding can pass, and a target of one: the
      index keeps all of them, the walk only the last. */
  lemma WrappedIndexKeepsTooMuch()
    ensures var es := [LARGEST, LARGEST, 3];
            Sum(es) % SIZE <= 1 && Walk(es, 1, 0) == 1 && |es| == 3
  {
    var es := [LARGEST, LARGEST, 3];
    assert es[..2] == [LARGEST, LARGEST] && es[..2][..1] == [LARGEST] && es[..2][..1][..0] == [];
    assert Sum(es[..2][..1]) == LARGEST;
    assert Sum(es[..2]) == 2 * LARGEST;
    assert Sum(es) == SIZE + 1;
    PrefixAndRest(es, 1);
    assert es[1..] == [LARGEST, 3] && es[1..][..1] == [LARGEST] && es[1..][..1][..0] == [];
    assert TailSum(es, 2) == LARGEST + 3;
    assert LargestWithin(es, 1, 1);
    WalkKeepsLargest(es, 1, 0);
    OnlyLargest(es, 1, 1, Walk(es, 1, 0));
  }

  /** The largest Lua integer. */
  const LARGEST: nat := 0x7fff_ffff_ffff_ffff

  // ---------------------------------------------------------------- estimates

  /** An estimate times 1.105, rounded up, or the largest size when that would overflow. */
  function Calibrated(tokens: nat): (r: nat)
    requires tokens < SIZE
    ensures tokens <= r < SIZE
    ensures 221 * tokens + 199 < SIZE ==> 200 * (r - 1) < 221 * tokens <= 200 * r
  {
    if tokens > (SIZE - 1 - 199) / 221 then SIZE - 1 else (221 * tokens + 199) / 200
  }
}
