/**
 What follows an ESC that a cluster swallowed: nothing that a reader of bytes would take
 for an escape sequence, unless the ESC comes last.
 */
module Swallow {
  import opened Bytes
  import opened Scanner
  import opened Locality
  import opened Glue

  /** Every ESC is followed by a byte that is no ASCII. */
  predicate Harmless(s: Text) {
    forall k :: 0 <= k < |s| && s[k] == ESC ==> k + 1 < |s| && s[k + 1] >= 0x80
  }

  /** The same, except that the last byte may be an ESC. */
  predicate HarmlessInside(s: Text) {
    forall k :: 0 <= k < |s| - 1 && s[k] == ESC ==> s[k + 1] >= 0x80
  }

  predicate EndsWithEsc(s: Text) {
    s != [] && s[|s| - 1] == ESC
  }

  /** A cluster that is drawn as it stands and would open an escape for a reader of bytes.
      Whitespace is not drawn as it stands: spaces take its place. */
  predicate OpensEscape(t: Token) {
    t.Glyph? && !IsWhitespace(t) && EndsWithEsc(t.bytes)
  }

  ghost predicate NoOpenEscape(ts: seq<Token>) {
    forall t :: t in ts ==> !OpensEscape(t)
  }

  /** Without a pending joiner no ASCII code point joins a cluster. */
  lemma AsciiRefused(u: Tables, st: Scan, cp: nat)
    requires !st.zwj && cp < 0x80
    ensures Extend(u, st, cp) == None
  {
  }

  lemma AsciiIsOneByte(s: Text)
    requires s != []
    ensures s[0] < 0x80 ==> Decode(s) == Decoded(s[0], 1)
    ensures forall k :: 0 < k < Decode(s).n ==> s[k] >= 0x80
  {
  }

  lemma FirstAccepted(u: Tables, st: Scan, s: Text)
    requires !st.zwj && Run(u, st, s).n > 0
    ensures s[0] >= 0x80
  {
    AsciiIsOneByte(s);
    if s[0] < 0x80 {
      AsciiRefused(u, st, s[0]);
    }
  }

  /** An ESC is accepted only after a joiner, and nothing ASCII after it. */
  lemma EscAccepted(u: Tables, st: Scan, s: Text)
    requires s != [] && s[0] == ESC && Extend(u, st, Decode(s).cp).Some?
    ensures var next := Extend(u, st, Decode(s).cp).value;
            && Decode(s).n == 1 && !next.zwj && !next.pair
            && (Run(u, next, s[1..]).n > 0 ==> |s| > 1 && s[1] >= 0x80)
  {
    hide Run;
    var next := Extend(u, st, Decode(s).cp).value;
    if Run(u, next, s[1..]).n > 0 {
      FirstAccepted(u, next, s[1..]);
    }
  }

  /** In what the scanner accepts after the front of a cluster, no ASCII byte follows an
      ESC; and if an ESC comes last, the scanner is through with joiners. */
  lemma {:induction false} RunHarmless(u: Tables, st: Scan, s: Text)
    ensures var r := Run(u, st, s);
            && HarmlessInside(s[..r.n])
            && (EndsWithEsc(s[..r.n]) ==> !r.st.zwj && !r.st.pair)
    decreases |s|
  {
    hide Decode, Extend;
    var r := Run(u, st, s);
    if r.n > 0 {
      var d := Decode(s);
      var next := Extend(u, st, d.cp).value;
      var rest := s[d.n..];
      var r2 := Run(u, next, rest);
      RunHarmless(u, next, rest);
      AsciiIsOneByte(s);
      if s[0] == ESC {
        EscAccepted(u, st, s);
      }
      HarmlessJoin(s, d.n, r2.n);
      if r2.n > 0 {
        assert s[..r.n][r.n - 1] == rest[..r2.n][r2.n - 1];
      }
    }
  }

  /** A code point, then a harmless text. */
  lemma HarmlessJoin(s: Text, n: nat, m: nat)
    requires 0 < n && n + m <= |s|
    requires forall k :: 0 < k < n ==> s[k] >= 0x80
    requires HarmlessInside(s[n..][..m])
    requires s[0] == ESC ==> n == 1 && (m > 0 ==> s[1] >= 0x80)
    ensures HarmlessInside(s[..n + m])
  {
    var t, all := s[n..][..m], s[..n + m];
    forall k | 0 <= k < |all| - 1 && all[k] == ESC
      ensures all[k + 1] >= 0x80
    {
      if k >= n {
        assert t[k - n] == ESC && t[k - n + 1] == s[k + 1];
      }
    }
  }

  lemma ClusterHarmless(u: Tables, s: Text)
    requires s != [] && s[0] != ESC
    ensures var r := Cluster(u, s);
            && HarmlessInside(s[..r.n])
            && (EndsWithEsc(s[..r.n]) ==> !r.st.zwj && !r.st.pair)
  {
    hide Decode, Run;
    var d := Decode(s);
    var rest := s[d.n..];
    var r := Run(u, Start(u, d.cp), rest);
    AsciiIsOneByte(s);
    RunHarmless(u, Start(u, d.cp), rest);
    HarmlessJoin(s, d.n, r.n);
    if r.n > 0 {
      assert s[..d.n + r.n][d.n + r.n - 1] == rest[..r.n][r.n - 1];
    }
  }

  /** A cluster of a text, unless it ends with an ESC. */
  lemma GlyphHarmless(u: Tables, t: Token, x: Text)
    requires t.Glyph? && StopsBefore(u, true, t, x)
    ensures HarmlessInside(t.bytes) && (!EndsWithEsc(t.bytes) ==> Harmless(t.bytes))
  {
    hide Cluster;
    var s := t.bytes + x;
    ClusterHarmless(u, s);
    assert s[..|t.bytes|] == t.bytes;
    forall k | 0 <= k < |t.bytes| && t.bytes[k] == ESC && !EndsWithEsc(t.bytes)
      ensures k + 1 < |t.bytes| && t.bytes[k + 1] >= 0x80
    {
    }
  }
}
