/**
 Where escape sequences and hard newlines end, said by positions instead of by recursion.
 */
module ScanEscapes {
  import opened Bytes
  import opened Scanner

  predicate FinalByte(s: Text, i: nat) {
    i < |s| && 0x40 <= s[i] <= 0x7e
  }

  /** A string sequence is ended by BEL, or by ESC and a backslash. */
  predicate EndByte(s: Text, i: nat) {
    i < |s| && (s[i] == 0x07 || (s[i] == 0x1b && i + 1 < |s| && s[i + 1] == 0x5c))
  }

  /** i is the first position from the third one on. */
  predicate First(s: Text, i: nat, Is: (Text, nat) -> bool) {
    2 <= i && Is(s, i) && forall j :: 2 <= j < i ==> !Is(s, j)
  }

  lemma {:induction false} CsiEnd(s: Text, k: nat)
    requires k <= |s|
    ensures var n := CsiLen(s[k..]);
            || (n > 0 && FinalByte(s, k + n - 1) && forall j :: k <= j < k + n - 1 ==> !FinalByte(s, j))
            || (k + n == |s| && forall j :: k <= j < |s| ==> !FinalByte(s, j))
    decreases |s| - k
  {
    if k < |s| && !IsCsiFinal(s[k]) {
      assert s[k..][1..] == s[k + 1..];
      CsiEnd(s, k + 1);
    }
  }

  lemma {:induction false} StringEnd(s: Text, k: nat)
    requires k <= |s|
    ensures var n := StringLen(s[k..]);
            || (exists i :: k <= i && EndByte(s, i) && (forall j :: k <= j < i ==> !EndByte(s, j))
                            && k + n == if s[i] == 0x07 then i + 1 else i + 2)
            || (k + n == |s| && forall j :: k <= j < |s| ==> !EndByte(s, j))
    decreases |s| - k
  {
    if k < |s| {
      if EndByte(s, k) {
        assert s[k..][0] == s[k];
      } else {
        assert s[k..][1..] == s[k + 1..];
        StringEnd(s, k + 1);
      }
    }
  }

  /** A control sequence ends with its first final byte, a string with its first terminator,
      anything else with the byte after the ESC; and what has no such end, with the text. */
  lemma EscapeExactly(s: Text)
    requires s != [] && s[0] == 0x1b
    ensures |s| == 1 ==> EscapeLen(s) == 1
    ensures |s| > 1 && s[1] == 0x5b ==>
              && (forall i: nat :: First(s, i, FinalByte) ==> EscapeLen(s) == i + 1)
              && ((forall i: nat :: 2 <= i ==> !FinalByte(s, i)) ==> EscapeLen(s) == |s|)
    ensures |s| > 1 && s[1] in {0x5d, 0x5f} ==>
              && (forall i: nat :: First(s, i, EndByte) ==> EscapeLen(s) == if s[i] == 0x07 then i + 1 else i + 2)
              && ((forall i: nat :: 2 <= i ==> !EndByte(s, i)) ==> EscapeLen(s) == |s|)
    ensures |s| > 1 && s[1] !in {0x5b, 0x5d, 0x5f} ==> EscapeLen(s) == 2
  {
    if |s| > 1 {
      CsiEnd(s, 2);
      StringEnd(s, 2);
    }
  }

  /** CR LF is one newline, and so is a CR or an LF alone. */
  lemma NewlineExactly(s: Text)
    ensures AtNewline(s) <==> s != [] && s[0] in {0x0d, 0x0a}
    ensures AtNewline(s) ==> NewlineLen(s) == if [0x0d, 0x0a] <= s then 2 else 1
  {
  }
}
