/**
 Clusters said from outside: which code point joins the ones before it, and how wide they
 are together, without a scanner that remembers anything.
 */
module ScanClusters {
  import opened Bytes
  import opened Scanner
  import opened Utf16
  import opened ScanDecode

  type CodePoints = s: seq<nat> | s != [] witness [0]

  // ---------------------------------------------------------------- what joins

  /** An Indic consonant came first, and no non-joiner broke its chain; one that the table
      called a linker would not. */
  predicate Conjunct(u: Tables, cps: CodePoints) {
    IsConsonant(u, cps[0]) && (ZWNJ !in cps[1..] || IsLinker(u, ZWNJ))
  }

  predicate Neutral(u: Tables, cp: nat) {
    cp == ZWJ || (cp != ZWNJ && IsModifier(u, cp))
  }

  /** A linker came, and after it only linkers, modifiers and joiners. */
  predicate Linked(u: Tables, cps: CodePoints) {
    exists i :: 0 < i < |cps| && IsLinker(u, cps[i])
                && forall j :: i < j < |cps| ==> IsLinker(u, cps[j]) || Neutral(u, cps[j])
  }

  /** A zero-width joiner came, not after a consonant, and after it only modifiers and
      joiners. */
  predicate Pending(u: Tables, cps: CodePoints) {
    !IsConsonant(u, cps[0])
    && exists i :: 0 < i < |cps| && cps[i] == ZWJ && forall j :: i < j < |cps| ==> Neutral(u, cps[j])
  }

  /** A second regional indicator joins the first; joiners and marks join anything; in a
      conjunct a linker joins, and a consonant after it; and anything joins after a pending
      joiner. */
  predicate Joins(u: Tables, cps: CodePoints, x: nat) {
    || (|cps| == 1 && IsRegionalIndicator(cps[0]) && IsRegionalIndicator(x))
    || x == ZWNJ || Neutral(u, x)
    || (Conjunct(u, cps) && (IsLinker(u, x) || (Linked(u, cps) && IsConsonant(u, x))))
    || Pending(u, cps)
  }

  /** How wide it is with one more: a consonant that is linked adds its width, what a joiner
      brings makes it at least two and as wide as that, everything else adds nothing. */
  function Widened(u: Tables, cps: CodePoints, width: nat, x: nat): nat {
    if |cps| == 1 && IsRegionalIndicator(cps[0]) && IsRegionalIndicator(x) then width
    else if x == ZWNJ || Neutral(u, x) || (Conjunct(u, cps) && IsLinker(u, x)) then width
    else if Conjunct(u, cps) && Linked(u, cps) && IsConsonant(u, x) then width + CodepointWidth(u, x)
    else Max(Max(width, CodepointWidth(u, x)), 2)
  }

  function Together(u: Tables, cps: CodePoints): nat
    decreases |cps|
  {
    var n := |cps| - 1;
    if n == 0 then if IsRegionalIndicator(cps[0]) then 2 else CodepointWidth(u, cps[0])
    else Widened(u, cps[..n], Together(u, cps[..n]), cps[n])
  }

  // ---------------------------------------------------------------- the scanner agrees

  /** What the scanner remembers after it took these code points. */
  ghost predicate Remembers(u: Tables, st: Scan, cps: CodePoints) {
    && st.indic == IsConsonant(u, cps[0])
    && st.chain == Conjunct(u, cps)
    && (st.chain ==> st.linked == Linked(u, cps))
    && st.zwj == Pending(u, cps)
    && st.pair == (|cps| == 1 && IsRegionalIndicator(cps[0]))
  }

  ghost predicate Tells(u: Tables, st: Scan, cps: CodePoints) {
    Remembers(u, st, cps) && st.width == Together(u, cps)
  }

  lemma StartTells(u: Tables, cp: nat)
    ensures Tells(u, Start(u, cp), [cp])
  {
  }

  lemma LongerLinked(u: Tables, cps: CodePoints, x: nat)
    ensures Linked(u, cps + [x]) <==> IsLinker(u, x) || (Linked(u, cps) && Neutral(u, x))
  {
    var n, more := |cps|, cps + [x];
    assert more[n] == x;
    if IsLinker(u, x) {
      assert 0 < n < |more| && IsLinker(u, more[n]);
    } else if Linked(u, cps) && Neutral(u, x) {
      var i :| 0 < i < n && IsLinker(u, cps[i]) && forall j :: i < j < n ==> IsLinker(u, cps[j]) || Neutral(u, cps[j]);
      assert more[i] == cps[i];
      forall j | i < j < |more|
        ensures IsLinker(u, more[j]) || Neutral(u, more[j])
      {
      }
    } else if Linked(u, more) {
      var i :| 0 < i < |more| && IsLinker(u, more[i])
               && forall j :: i < j < |more| ==> IsLinker(u, more[j]) || Neutral(u, more[j]);
      assert i < n && more[i] == cps[i];
      forall j | i < j < n
        ensures IsLinker(u, cps[j]) || Neutral(u, cps[j])
      {
        assert more[j] == cps[j];
      }
    }
  }

  lemma LongerPending(u: Tables, cps: CodePoints, x: nat)
    ensures Pending(u, cps + [x]) <==> !IsConsonant(u, cps[0]) && (x == ZWJ || (Pending(u, cps) && Neutral(u, x)))
  {
    var n, more := |cps|, cps + [x];
    assert more[n] == x && more[0] == cps[0];
    if IsConsonant(u, cps[0]) {
    } else if x == ZWJ {
      assert 0 < n < |more| && more[n] == ZWJ;
    } else if Pending(u, cps) && Neutral(u, x) {
      var i :| 0 < i < n && cps[i] == ZWJ && forall j :: i < j < n ==> Neutral(u, cps[j]);
      assert more[i] == cps[i];
      forall j | i < j < |more|
        ensures Neutral(u, more[j])
      {
      }
    } else if Pending(u, more) {
      var i :| 0 < i < |more| && more[i] == ZWJ && forall j :: i < j < |more| ==> Neutral(u, more[j]);
      assert i < n && more[i] == cps[i];
      forall j | i < j < n
        ensures Neutral(u, cps[j])
      {
        assert more[j] == cps[j];
      }
    }
  }

  lemma LongerConjunct(u: Tables, cps: CodePoints, x: nat)
    ensures Conjunct(u, cps + [x]) <==> Conjunct(u, cps) && (x != ZWNJ || IsLinker(u, ZWNJ))
    ensures (cps + [x])[..|cps|] == cps
  {
    assert (cps + [x])[1..] == cps[1..] + [x];
  }

  lemma ExtendJoins(u: Tables, st: Scan, cps: CodePoints, x: nat)
    requires Remembers(u, st, cps)
    ensures Extend(u, st, x).Some? <==> Joins(u, cps, x)
    ensures Extend(u, st, x).Some? ==> Extend(u, st, x).value.width == Widened(u, cps, st.width, x)
  {
    hide Conjunct, Linked, Pending, IsLinker, IsConsonant, IsModifier, CodepointWidth;
    ConjunctNotPending(u, cps);
  }

  lemma ExtendRemembers(u: Tables, st: Scan, cps: CodePoints, x: nat)
    requires Remembers(u, st, cps) && Extend(u, st, x).Some?
    ensures Remembers(u, Extend(u, st, x).value, cps + [x])
  {
    hide Conjunct, Linked, Pending, IsLinker, IsConsonant, CodepointWidth, WcWidth;
    LongerLinked(u, cps, x);
    LongerPending(u, cps, x);
    LongerConjunct(u, cps, x);
    ConjunctNotPending(u, cps);
    assert (cps + [x])[0] == cps[0];
  }

  /** The scanner takes one more code point if and only if it joins, and still tells. */
  lemma ExtendTells(u: Tables, st: Scan, cps: CodePoints, x: nat)
    requires Tells(u, st, cps)
    ensures Extend(u, st, x).Some? <==> Joins(u, cps, x)
    ensures Extend(u, st, x).Some? ==> Tells(u, Extend(u, st, x).value, cps + [x])
  {
    hide Remembers, Extend, Joins, Widened;
    ExtendJoins(u, st, cps, x);
    LongerConjunct(u, cps, x);
    if Extend(u, st, x).Some? {
      ExtendRemembers(u, st, cps, x);
    }
  }

  lemma ConjunctNotPending(u: Tables, cps: CodePoints)
    ensures Conjunct(u, cps) ==> IsConsonant(u, cps[0])
    ensures Pending(u, cps) ==> !IsConsonant(u, cps[0])
    ensures |cps| == 1 ==> !Pending(u, cps) && !Linked(u, cps)
    ensures IsRegionalIndicator(cps[0]) ==> !IsConsonant(u, cps[0])
  {
  }

  // ---------------------------------------------------------------- clusters of texts

  /** The cluster that the first k of the code points form: each joins those before it, and
      the one after them does not. */
  ghost predicate IsClusterOf(u: Tables, cps: Scalars, k: nat)
    requires 0 < k <= |cps|
  {
    && (forall j :: 0 < j < k ==> Joins(u, cps[..j], cps[j]))
    && (k < |cps| ==> !Joins(u, cps[..k], cps[k]))
  }

  lemma RunOne(u: Tables, st: Scan, cp: int, rest: Text)
    requires Scalar(cp)
    ensures var r := Run(u, st, Utf8(cp) + rest);
            match Extend(u, st, cp)
            case None => r == Ran(0, st)
            case Some(next) =>
              var more := Run(u, next, rest); r == Ran(|Utf8(cp)| + more.n, more.st)
  {
    hide Decode, Extend, Utf8;
    var s := Utf8(cp) + rest;
    DecodeEncoded(cp, rest);
    assert s[|Utf8(cp)|..] == rest;
  }

  lemma {:induction false} RunForms(u: Tables, st: Scan, cps: Scalars, i: nat) returns (k: nat)
    requires 0 < i <= |cps| && Tells(u, st, cps[..i])
    ensures i <= k <= |cps| && forall j :: i <= j < k ==> Joins(u, cps[..j], cps[j])
    ensures k < |cps| ==> !Joins(u, cps[..k], cps[k])
    ensures var r := Run(u, st, EncodeUtf8(cps[i..]));
            r.n == |EncodeUtf8(cps[i..k])| && r.st.width == Together(u, cps[..k])
    decreases |cps| - i
  {
    hide Extend, Joins, Utf8, Decode;
    k := i;
    if i == |cps| {
      assert cps[i..] == [] && cps[i..k] == [];
    } else {
      var rest := cps[i + 1..];
      assert cps[i..][1..] == rest && cps[i..][0] == cps[i];
      RunOne(u, st, cps[i], EncodeUtf8(rest));
      ExtendTells(u, st, cps[..i], cps[i]);
      assert cps[..i] + [cps[i]] == cps[..i + 1];
      if Joins(u, cps[..i], cps[i]) {
        k := RunForms(u, Extend(u, st, cps[i]).value, cps, i + 1);
        assert cps[i..k][1..] == cps[i + 1..k] && cps[i..k][0] == cps[i];
      } else {
        assert cps[i..k] == [];
      }
    }
  }

  /** The front cluster of any text of scalars, bytes and width. */
  lemma ClusterForms(u: Tables, cps: Scalars) returns (k: nat)
    requires cps != []
    ensures 0 < k <= |cps| && IsClusterOf(u, cps, k)
    ensures var c := Cluster(u, EncodeUtf8(cps));
            c.n == |EncodeUtf8(cps[..k])| && c.st.width == Together(u, cps[..k])
  {
    hide Joins, Utf8, Decode, Together, Run;
    var rest := EncodeUtf8(cps[1..]);
    DecodeEncoded(cps[0], rest);
    var s := Utf8(cps[0]) + rest;
    assert s[|Utf8(cps[0])|..] == rest;
    assert cps[..1] == [cps[0]];
    StartTells(u, cps[0]);
    k := RunForms(u, Start(u, cps[0]), cps, 1);
    assert cps[..k][1..] == cps[1..k] && cps[..k][0] == cps[0];
  }

  // ---------------------------------------------------------------- widths by hand

  /** A text of printable ASCII and tabs is as wide as it has characters, tabs counting three. */
  predicate Typed(s: Text) {
    forall i :: 0 <= i < |s| ==> s[i] == TAB || 0x20 <= s[i] <= 0x7e
  }

  function Columns(s: Text): nat {
    if s == [] then 0 else (if s[0] == TAB then 3 else 1) + Columns(s[1..])
  }

  lemma TypedToken(u: Tables, s: Text)
    requires s != [] && Typed(s)
    ensures Next(u, false, s) == Glyph([s[0]], if s[0] == TAB then 3 else 1)
  {
    assert s[..1] == [s[0]];
    if |s| > 1 {
      assert s[1..][0] == s[1];
    }
  }

  lemma {:induction false} TypedWidth(u: Tables, s: Text)
    requires Typed(s)
    ensures VisibleWidth(u, s) == Columns(s)
    decreases |s|
  {
    hide Next;
    if s != [] {
      TypedToken(u, s);
      TypedWidth(u, s[1..]);
      var t := Next(u, false, s);
      assert Tokens(u, false, s) == [t] + Tokens(u, false, s[1..]);
      assert ([t] + Tokens(u, false, s[1..]))[1..] == Tokens(u, false, s[1..]);
    }
  }

  /** Every width is what the table says, within zero and two; control characters have
      none, and numbers beyond Unicode one. A mark is what the table gives no width, and a
      skin tone. */
  lemma WidthByTable(u: Tables, cp: nat)
    ensures (cp < 0x20 && cp != 0x09) || 0x7f <= cp <= 0x9f ==> CodepointWidth(u, cp) == 0
    ensures cp > 0x10ffff ==> CodepointWidth(u, cp) == 1
    ensures 0xa0 <= cp <= 0x10ffff ==>
              CodepointWidth(u, cp) == if u.wcwidth(cp) <= 0 then 0 else if u.wcwidth(cp) == 1 then 1 else 2
    ensures IsModifier(u, cp) <==> 0x1f3fb <= cp <= 0x1f3ff
                                   || (0xa0 <= cp <= 0x10ffff && cp != 0x200d && u.wcwidth(cp) == 0)
  {
  }

  /** Two regional indicators are one cluster of eight bytes that is two columns wide. */
  lemma Flag(u: Tables, a: nat, b: nat)
    requires 0x1f1e6 <= a <= 0x1f1ff && 0x1f1e6 <= b <= 0x1f1ff
    ensures var c := Cluster(u, Utf8(a) + Utf8(b)); c.n == 8 && c.st.width == 2
  {
    hide Decode, Utf8, Cluster, Neutral, Conjunct, Pending;
    var cps: Scalars := [a, b];
    var k := ClusterForms(u, cps);
    assert cps[..1] == [a] && cps[..2] == cps;
    IndicatorBytes(a);
    IndicatorBytes(b);
    assert EncodeUtf8(cps[1..][1..]) == [];
    assert EncodeUtf8(cps) == Utf8(a) + Utf8(b);
  }

  lemma IndicatorBytes(a: nat)
    requires 0x1f1e6 <= a <= 0x1f1ff
    ensures |Utf8(a)| == 4
  {
  }
}
