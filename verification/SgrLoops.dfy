/**
 The SGR parameter loops of the wrapper, by index, against their specification.
 */
module SgrLoops {
  import opened Bytes
  import opened Sgr

  /** The parameter bytes from index i on. */
  function ParamsFrom(e: Text, i: nat): Text
    requires 0 < |e| && i < |e|
  {
    e[i..|e| - 1]
  }

  lemma ParamsStep(e: Text, i: nat)
    requires i + 1 < |e|
    ensures ParamsFrom(e, i) != [] && ParamsFrom(e, i)[0] == e[i] && ParamsFrom(e, i)[1..] == ParamsFrom(e, i + 1)
  {
  }

  method SgrResets(e: Text) returns (resets: bool)
    ensures resets == Resets(e)
  {
    if |e| < 3 || e[0] != ESC || e[1] != '[' as int || e[|e| - 1] != 'm' as int {
      return false;
    }
    if |e| == 3 {
      return true;
    }
    var i := 2;
    var value := 0;
    var sawDigit := false;
    ghost var cur: Text := [];
    while i + 1 < |e|
      invariant 2 <= i < |e|
      invariant value == Value(cur) && (sawDigit <==> cur != [])
      invariant Resets(e) == ZeroIn(Fields(cur, ParamsFrom(e, i)))
    {
      var ch := e[i];
      ParamsStep(e, i);
      var fields := Fields(cur, ParamsFrom(e, i));
      if IsDigit(ch) {
        value := value * 10 + (ch - '0' as int);
        sawDigit := true;
        assert (cur + [ch])[..|cur|] == cur;
        cur := cur + [ch];
      } else {
        assert fields[1..] == Fields([], ParamsFrom(e, i + 1));
        if sawDigit && value == 0 {
          return true;
        }
        value := 0;
        sawDigit := false;
        cur := [];
      }
      i := i + 1;
    }
    assert ParamsFrom(e, i) == [];
    assert [cur][1..] == [];
    return sawDigit && value == 0;
  }

  lemma NoDigits()
    ensures Value([]) == 0
  {
  }

  lemma ValueSnoc(b: Text, n: nat)
    requires n < |b| && IsDigit(b[n])
    ensures Value(b[..n + 1]) == Value(b[..n]) * 10 + (b[n] - '0' as int)
  {
    assert b[..n + 1][..n] == b[..n];
  }

  /** Reads one number and stands after its digits. */
  method ParseSgrValue(e: Text, start: nat) returns (found: bool, i: nat, value: nat)
    requires start < |e|
    ensures var n := DigitsLen(ParamsFrom(e, start));
            && i == start + n < |e| && (found <==> n > 0)
            && value == Value(ParamsFrom(e, start)[..n])
            && ParamsFrom(e, i) == ParamsFrom(e, start)[n..]
  {
    hide Value;
    found := false;
    value := 0;
    i := start;
    NoDigits();
    ghost var b := ParamsFrom(e, start);
    while i + 1 < |e|
      invariant start <= i < |e| && i - start <= |b|
      invariant DigitsLen(b) == i - start + DigitsLen(ParamsFrom(e, i))
      invariant ParamsFrom(e, i) == b[i - start..]
      invariant value == Value(b[..i - start]) && (found <==> i > start)
    {
      ParamsStep(e, i);
      var ch := e[i];
      if !IsDigit(ch) {
        break;
      }
      ValueSnoc(b, i - start);
      value := value * 10 + (ch - '0' as int);
      found := true;
      i := i + 1;
    }
    assert DigitsLen(ParamsFrom(e, i)) == 0;
  }

  lemma DropSemicolonFrom(e: Text, i: nat)
    requires i < |e|
    ensures i + 1 < |e| && e[i] == ';' as int ==> ParamsFrom(e, i + 1) == DropSemicolon(ParamsFrom(e, i))
    ensures !(i + 1 < |e| && e[i] == ';' as int) ==> ParamsFrom(e, i) == DropSemicolon(ParamsFrom(e, i))
  {
    if i + 1 < |e| {
      ParamsStep(e, i);
    }
  }

  lemma SkipNumbersStep(b: Text, k: nat)
    requires k > 0 && b != []
    ensures var r := DropSemicolon(b);
            var n := DigitsLen(r);
            SkipNumbers(b, k) == if n == 0 then r else SkipNumbers(r[n..], k - 1)
  {
  }

  lemma SkipNumbersEnd(b: Text, k: nat)
    requires k == 0 || b == []
    ensures SkipNumbers(b, k) == b
  {
  }

  /** Skips up to `count` colour components. */
  method SkipComponents(e: Text, start: nat, count: nat) returns (i: nat)
    requires start < |e|
    ensures start <= i < |e| && ParamsFrom(e, i) == SkipNumbers(ParamsFrom(e, start), count)
  {
    hide DigitsLen, Value, SkipNumbers, DropSemicolon;
    i := start;
    var remaining := count;
    ghost var goal := SkipNumbers(ParamsFrom(e, i), remaining);
    while remaining > 0 && i + 1 < |e|
      invariant start <= i < |e|
      invariant goal == SkipNumbers(ParamsFrom(e, i), remaining)
    {
      SkipNumbersStep(ParamsFrom(e, i), remaining);
      DropSemicolonFrom(e, i);
      if e[i] == ';' as int {
        i := i + 1;
      }
      var more, after, ignored := ParseSgrValue(e, i);
      i := after;
      if !more {
        assert ParamsFrom(e, i) == goal;
        return;
      }
      remaining := remaining - 1;
    }
    SkipNumbersEnd(ParamsFrom(e, i), remaining);
  }

  /** Skips the colour after 38 or 48; stands where the scan goes on. */
  method SkipColorValue(e: Text, start: nat) returns (i: nat)
    requires start < |e|
    ensures start <= i < |e| && ParamsFrom(e, i) == SkipColor(ParamsFrom(e, start))
  {
    hide DigitsLen, Value, SkipNumbers, DropSemicolon;
    i := start;
    DropSemicolonFrom(e, i);
    if i + 1 < |e| && e[i] == ';' as int {
      i := i + 1;
    }
    var found, next, mode := ParseSgrValue(e, i);
    if found {
      i := SkipComponents(e, next, if mode == 5 then 1 else if mode == 2 then 3 else 0);
    }
  }

  method UnderlineAfterSgr(e: Text, underline: bool) returns (on: bool)
    ensures on == if !IsCsiM(e) then underline else if Resets(e) then false else Underline(underline, Body(e))
  {
    on := underline;
    if |e| < 3 || e[0] != ESC || e[1] != '[' as int || e[|e| - 1] != 'm' as int {
      return;
    }
    var resets := SgrResets(e);
    if resets {
      on := false;
      return;
    }
    hide Value, SkipColor, Resets;
    var i := 2;
    while i + 1 < |e|
      invariant 2 <= i < |e|
      invariant Underline(underline, Body(e)) == Underline(on, ParamsFrom(e, i))
    {
      ParamsStep(e, i);
      if e[i] == ';' as int {
        i := i + 1;
      } else {
        var found, next, code := ParseSgrValue(e, i);
        if !found {
          i := i + 1;
        } else {
          i := next;
          if code == 0 {
            on := false;
          } else if code == 4 {
            on := true;
          } else if code == 24 {
            on := false;
          } else if code == 38 || code == 48 {
            i := SkipColorValue(e, i);
          }
        }
      }
    }
  }

  method ReadOsc8(e: Text) returns (change: LinkChange)
    ensures change == ReadLink(e)
  {
    if |e| < 5 || e[0] != ESC || e[1] != ']' as int || e[2] != '8' as int || e[3] != ';' as int {
      return Untouched;
    }
    var start := 4;
    while start < |e| && e[start] != ';' as int
      invariant 4 <= start <= |e|
      invariant IndexOf(e[4..], ';' as int) == start - 4 + IndexOf(e[start..], ';' as int)
    {
      assert e[start..][1..] == e[start + 1..];
      start := start + 1;
    }
    assert start < |e| ==> e[start..][0] == ';' as int;
    if start >= |e| {
      return Untouched;
    }
    start := start + 1;
    if e[|e| - 1] == BEL {
      return if |e| - 1 <= start then Closed else Opened(BEL);
    }
    if e[|e| - 2] == ESC && e[|e| - 1] == '\\' as int {
      return if |e| - 2 <= start then Closed else Opened('\\' as int);
    }
    return Untouched;
  }
}
