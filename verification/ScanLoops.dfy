/**
 The scanner as the C code runs it: byte indexes, loops and early returns, each method
 proved against the front-of-string specification in Scanner.
 */
module ScanLoops {
  import opened Bytes
  import opened Scanner
  import opened Locality
  import opened Seqs

  method ReadEscape(text: Text, i: nat) returns (found: bool, next: nat)
    ensures found <==> i < |text| && text[i] == ESC
    ensures found ==> next == i + EscapeLen(text[i..]) <= |text|
  {
    if i >= |text| || text[i] != ESC {
      return false, i;
    }
    if i + 1 >= |text| {
      return true, i + 1;
    }
    var kind := text[i + 1];
    assert text[i..][2..] == text[i + 2..];
    if kind == '[' as int {
      var j := i + 2;
      while j < |text|
        invariant i + 2 <= j <= |text|
        invariant CsiLen(text[i + 2..]) == j - (i + 2) + CsiLen(text[j..])
      {
        assert text[j..][1..] == text[j + 1..];
        if IsCsiFinal(text[j]) {
          return true, j + 1;
        }
        j := j + 1;
      }
      return true, |text|;
    }
    if kind == ']' as int || kind == '_' as int {
      var j := i + 2;
      while j < |text|
        invariant i + 2 <= j <= |text|
        invariant StringLen(text[i + 2..]) == j - (i + 2) + StringLen(text[j..])
      {
        assert text[j..][1..] == text[j + 1..];
        if text[j] == BEL {
          return true, j + 1;
        }
        if text[j] == ESC && j + 1 < |text| && text[j + 1] == '\\' as int {
          return true, j + 2;
        }
        j := j + 1;
      }
      return true, |text|;
    }
    return true, i + 2;
  }

  method HardNewlineEnd(text: Text, i: nat) returns (found: bool, next: nat)
    ensures found <==> i < |text| && AtNewline(text[i..])
    ensures found ==> next == i + NewlineLen(text[i..]) <= |text|
  {
    if i >= |text| {
      return false, i;
    }
    if text[i] == CARRIAGE_RETURN {
      next := i + 1;
      if next < |text| && text[next] == NEWLINE {
        next := next + 1;
      }
      return true, next;
    }
    if text[i] == NEWLINE {
      return true, i + 1;
    }
    return false, i;
  }

  method DecodeUtf8(text: Text, i: nat) returns (cp: nat, next: nat)
    requires i <= |text|
    ensures i < |text| ==> i < next <= |text|
    ensures i < |text| ==> Decode(text[i..]) == Decoded(cp, next - i)
    ensures i == |text| ==> cp == 0 && next == i
  {
    if i >= |text| {
      return 0, i;
    }
    var b1: int := text[i];
    if b1 < 0x80 {
      return b1, i + 1;
    }
    var b2: int := if i + 1 < |text| then text[i + 1] else 0;
    var b3: int := if i + 2 < |text| then text[i + 2] else 0;
    var b4: int := if i + 3 < |text| then text[i + 3] else 0;
    if 0xc2 <= b1 <= 0xdf && IsContinuation(b2) {
      return (b1 - 0xc0) * 0x40 + (b2 - 0x80), i + 2;
    }
    if 0xe0 <= b1 <= 0xef && IsContinuation(b2) && IsContinuation(b3) {
      return (b1 - 0xe0) * 0x1000 + (b2 - 0x80) * 0x40 + (b3 - 0x80), i + 3;
    }
    if 0xf0 <= b1 <= 0xf4 && IsContinuation(b2) && IsContinuation(b3) && IsContinuation(b4) {
      return (b1 - 0xf0) * 0x40000 + (b2 - 0x80) * 0x1000 + (b3 - 0x80) * 0x40 + (b4 - 0x80), i + 4;
    }
    return b1, i + 1;
  }

  ghost function RunFrom(u: Tables, st: Scan, text: Text, i: nat): Ran
    requires i <= |text|
  {
    Run(u, st, text[i..])
  }

  lemma RunFromStep(u: Tables, st: Scan, text: Text, i: nat)
    requires i < |text|
    ensures var d := Decode(text[i..]);
            match Extend(u, st, d.cp)
            case None => RunFrom(u, st, text, i) == Ran(0, st)
            case Some(next) =>
              var r := RunFrom(u, next, text, i + d.n);
              RunFrom(u, st, text, i) == Ran(d.n + r.n, r.st)
  {
    DropDrop(text, i, Decode(text[i..]).n);
  }

  lemma RunFromEnd(u: Tables, st: Scan, text: Text)
    ensures RunFrom(u, st, text, |text|) == Ran(0, st)
  {
  }

  /** A second regional indicator is looked for only once, before the loop. */
  lemma RunForgetsPair(u: Tables, st: Scan, text: Text, i: nat)
    requires i <= |text|
    requires i < |text| ==> !(st.pair && IsRegionalIndicator(Decode(text[i..]).cp))
    ensures RunFrom(u, st, text, i).n == RunFrom(u, st.(pair := false), text, i).n
    ensures RunFrom(u, st, text, i).st.width == RunFrom(u, st.(pair := false), text, i).st.width
  {
    if i < |text| {
      RunFromStep(u, st, text, i);
      RunFromStep(u, st.(pair := false), text, i);
    }
  }

  lemma ClusterFrom(u: Tables, text: Text, start: nat)
    requires start < |text|
    ensures var d := Decode(text[start..]);
            var r := RunFrom(u, Start(u, d.cp), text, start + d.n);
            Cluster(u, text[start..]) == Ran(d.n + r.n, r.st)
  {
    DropDrop(text, start, Decode(text[start..]).n);
  }

  method NextCluster(u: Tables, text: Text, start: nat) returns (next: nat, width: nat)
    requires start < |text|
    ensures Cluster(u, text[start..]).n == next - start && Cluster(u, text[start..]).st.width == width
    ensures start < next <= |text|
  {
    hide Decode, Run, Cluster, WcWidth, IsControl, IsModifier, IsLinker, IsConsonant;
    var cp, after := DecodeUtf8(text, start);
    width := CodepointWidth(u, cp);
    var clusterIsIndic := IsConsonant(u, cp);
    var indicChainValid := clusterIsIndic;
    var linkerPending := false;
    ghost var first := after;
    ClusterFrom(u, text, start);
    ghost var st0 := Start(u, cp);
    if IsRegionalIndicator(cp) {
      width := 2;
      var cp2, after2 := DecodeUtf8(text, after);
      if IsRegionalIndicator(cp2) {
        RunFromStep(u, st0, text, first);
        after := after2;
      } else {
        RunForgetsPair(u, st0, text, first);
      }
    }
    var i := after;
    var sawZwj := false;
    ghost var st := Scan(width, clusterIsIndic, indicChainValid, linkerPending, sawZwj, false);
    ghost var goal := RunFrom(u, st0, text, first);
    while i < |text|
      invariant start < first <= i <= |text|
      invariant st == Scan(width, clusterIsIndic, indicChainValid, linkerPending, sawZwj, false)
      invariant goal.n == i - first + RunFrom(u, st, text, i).n
      invariant goal.st.width == RunFrom(u, st, text, i).st.width
    {
      var nextCp, nextAfter := DecodeUtf8(text, i);
      RunFromStep(u, st, text, i);
      ghost var step := Extend(u, st, nextCp);
      if indicChainValid && IsLinker(u, nextCp) {
        linkerPending := true;
        i := nextAfter;
      } else if nextCp == ZWNJ {
        indicChainValid := false;
        linkerPending := false;
        sawZwj := false;
        i := nextAfter;
      } else if IsModifier(u, nextCp) {
        i := nextAfter;
      } else if nextCp == ZWJ {
        if !clusterIsIndic {
          sawZwj := true;
        }
        i := nextAfter;
      } else if indicChainValid && linkerPending && IsConsonant(u, nextCp) {
        width := width + CodepointWidth(u, nextCp);
        linkerPending := false;
        i := nextAfter;
      } else if sawZwj {
        var nextWidth := CodepointWidth(u, nextCp);
        if nextWidth > width {
          width := nextWidth;
        }
        if width < 2 {
          width := 2;
        }
        sawZwj := false;
        i := nextAfter;
      } else {
        break;
      }
      st := Scan(width, clusterIsIndic, indicChainValid, linkerPending, sawZwj, false);
      assert step == Some(st);
    }
    if i == |text| {
      RunFromEnd(u, st, text);
    }
    next := i;
  }

  // ---------------------------------------------------------------- widths

  lemma TokensFront(u: Tables, nl: bool, s: Text)
    requires s != []
    ensures var t := Next(u, nl, s); Tokens(u, nl, s) == [t] + Tokens(u, nl, s[|t.bytes|..])
  {
    hide Next;
  }

  lemma WidthCons(t: Token, ts: seq<Token>)
    ensures Width([t] + ts) == TokenWidth(t) + Width(ts)
  {
    assert ([t] + ts)[1..] == ts;
  }

  ghost function VisibleFrom(u: Tables, text: Text, i: nat): nat
    requires i <= |text|
  {
    Width(Tokens(u, false, text[i..]))
  }

  lemma VisibleStep(u: Tables, text: Text, i: nat)
    requires i < |text|
    ensures text[i] == ESC ==> VisibleFrom(u, text, i) == VisibleFrom(u, text, i + EscapeLen(text[i..]))
    ensures text[i] != ESC ==>
              var c := Cluster(u, text[i..]);
              VisibleFrom(u, text, i) == c.st.width + VisibleFrom(u, text, i + c.n)
  {
    hide Decode, Run, Cluster, EscapeLen, Tokens, Width;
    TokensFront(u, false, text[i..]);
    var t := Next(u, false, text[i..]);
    DropDrop(text, i, |t.bytes|);
    WidthCons(t, Tokens(u, false, text[i + |t.bytes|..]));
  }

  method VisibleWidthBytes(u: Tables, text: Text) returns (width: nat)
    ensures width == VisibleWidth(u, text)
  {
    hide Decode, Run, Cluster, EscapeLen;
    var i := 0;
    width := 0;
    assert text[0..] == text;
    ghost var total := VisibleFrom(u, text, 0);
    while i < |text|
      invariant 0 <= i <= |text|
      invariant total == width + VisibleFrom(u, text, i)
    {
      VisibleStep(u, text, i);
      var found, next := ReadEscape(text, i);
      if !found {
        var clusterWidth;
        next, clusterWidth := NextCluster(u, text, i);
        width := width + clusterWidth;
      }
      i := next;
    }
  }

  /** The byte offset of the k-th token boundary. */
  function Boundary(u: Tables, text: Text, k: nat): nat
    requires k <= |Tokens(u, false, text)|
  {
    |Flat(Tokens(u, false, text)[..k])|
  }

  lemma {:induction false} PrefixGrows(ts: seq<Token>, j: nat, k: nat)
    requires j <= k <= |ts|
    ensures Width(ts[..j]) <= Width(ts[..k]) && |Flat(ts[..j])| <= |Flat(ts[..k])|
  {
    assert ts[..k] == ts[..j] + ts[j..k];
    WidthAppend(ts[..j], ts[j..k]);
    FlatAppend(ts[..j], ts[j..k]);
  }

  ghost predicate Fits(u: Tables, text: Text, w: int, k: nat)
    requires k <= |Tokens(u, false, text)|
  {
    Boundary(u, text, k) <= |text| && VisibleWidth(u, text[..Boundary(u, text, k)]) <= w
  }

  lemma FitsIsWidth(u: Tables, text: Text, w: int, k: nat)
    requires k <= |Tokens(u, false, text)|
    ensures Fits(u, text, w, k) <==> Width(Tokens(u, false, text)[..k]) <= w
  {
    ScanLocality(u, false, text, k);
  }

  /** After k tokens the scan stands at boundary k, and one more token moves it on. */
  lemma BoundaryStep(u: Tables, text: Text, k: nat)
    requires k < |Tokens(u, false, text)|
    ensures var ts := Tokens(u, false, text);
            var b := Boundary(u, text, k);
            && b < |text|
            && Next(u, false, text[b..]) == ts[k]
            && Boundary(u, text, k + 1) == b + |ts[k].bytes|
            && Width(ts[..k + 1]) == Width(ts[..k]) + TokenWidth(ts[k])
  {
    var ts := Tokens(u, false, text);
    ScanLocality(u, false, text, k);
    var b := Boundary(u, text, k);
    assert ts[k..] != [];
    assert Tokens(u, false, text[b..])[0] == ts[k];
    assert ts[..k + 1] == ts[..k] + [ts[k]];
    FlatAppend(ts[..k], [ts[k]]);
    WidthAppend(ts[..k], [ts[k]]);
    assert [ts[k]][1..] == [];
    assert Flat([ts[k]]) == ts[k].bytes + [];
  }

  lemma BoundaryEnds(u: Tables, text: Text)
    ensures var n := |Tokens(u, false, text)|; Boundary(u, text, 0) == 0 && Boundary(u, text, n) == |text|
    ensures Width(Tokens(u, false, text)[..0]) == 0
  {
    var ts := Tokens(u, false, text);
    TokensCover(u, false, text);
    assert ts[..|ts|] == ts && ts[..0] == [];
  }

  lemma BoundaryGrows(u: Tables, text: Text, j: nat, k: nat)
    requires j <= k <= |Tokens(u, false, text)|
    ensures Boundary(u, text, j) <= Boundary(u, text, k)
  {
    PrefixGrows(Tokens(u, false, text), j, k);
  }

  /** The longest prefix that ends at a token boundary and whose visible width fits. */
  method ByteIndexForWidth(u: Tables, text: Text, w: int) returns (index: nat)
    ensures w <= 0 ==> index == 0
    ensures w > 0 ==>
              exists k :: 0 <= k <= |Tokens(u, false, text)| && index == Boundary(u, text, k) && Fits(u, text, w, k)
    ensures w > 0 ==>
              forall k :: 0 <= k <= |Tokens(u, false, text)| && Fits(u, text, w, k) ==> Boundary(u, text, k) <= index
  {
    if w <= 0 {
      return 0;
    }
    hide Decode, Run, Cluster, EscapeLen, Tokens, Width, Flat, Boundary, Fits;
    var i, seen := 0, 0;
    ghost var ts := Tokens(u, false, text);
    BoundaryEnds(u, text);
    ghost var j := 0;
    while i < |text|
      invariant 0 <= j <= |ts| && i == Boundary(u, text, j) <= |text|
      invariant seen == Width(ts[..j]) <= w
    {
      BoundaryStep(u, text, j);
      var found, next := ReadEscape(text, i);
      if !found {
        var clusterWidth;
        next, clusterWidth := NextCluster(u, text, i);
        if seen + clusterWidth > w {
          FitsIsWidth(u, text, w, j);
          forall k | 0 <= k <= |ts| && Fits(u, text, w, k)
            ensures Boundary(u, text, k) <= i
          {
            FitsIsWidth(u, text, w, k);
            if k > j {
              PrefixGrows(ts, j + 1, k);
              assert false;
            }
            BoundaryGrows(u, text, k, j);
          }
          return i;
        }
        seen := seen + clusterWidth;
      }
      i := next;
      j := j + 1;
    }
    FitsIsWidth(u, text, w, j);
    forall k | 0 <= k <= |ts| && Fits(u, text, w, k)
      ensures Boundary(u, text, k) <= |text|
    {
      BoundaryGrows(u, text, k, |ts|);
    }
    return |text|;
  }
}
