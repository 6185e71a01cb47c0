/**
 Gluing token lists whose bytes were not neighbours in the source text: when does the
 concatenation scan to the concatenated tokens? The wrapper inserts escapes and spaces
 and drops whitespace, so its output lines depend on this.
 */
module Glue {
  import opened Bytes
  import opened Scanner
  import opened Locality
  import opened Seqs

  /** t is over: it would not take an escape sequence that followed it. */
  ghost predicate Shut(u: Tables, t: Token) {
    StopsBefore(u, true, t, [ESC])
  }

  ghost predicate ShutEnd(u: Tables, ts: seq<Token>) {
    ts != [] ==> Shut(u, ts[|ts| - 1])
  }

  /** What the width table says of Indic consonants and of the Latin-1 letters that a
      stray UTF-8 lead byte is read as. */
  ghost predicate TableFacts(u: Tables) {
    && (forall cp: nat :: IsConsonant(u, cp) ==> CodepointWidth(u, cp) > 0)
    && (forall cp: nat :: 0xc2 <= cp <= 0xf4 ==> WcWidth(u, cp) > 0)
  }

  predicate Inert(x: Text) {
    x != [] && (x[0] == ESC || x[0] == SPACE)
  }

  const BLANK := Glyph([SPACE], 1)

  // ---------------------------------------------------------------- escapes

  lemma {:induction false} CsiComplete(c: Text, y: Text, z: Text)
    requires CsiLen(c + y) == |c| && y != []
    ensures CsiLen(c + z) == |c|
  {
    if c == [] {
      EmptyFront(c, y);
      assert false;
    } else {
      assert (c + y)[1..] == c[1..] + y && (c + z)[1..] == c[1..] + z;
      if !IsCsiFinal(c[0]) {
        CsiComplete(c[1..], y, z);
      } else {
        assert c[1..] == [];
      }
    }
  }

  lemma {:induction false} StringComplete(c: Text, y: Text, z: Text)
    requires StringLen(c + y) == |c| && y != []
    ensures StringLen(c + z) == |c|
  {
    if c == [] {
      EmptyFront(c, y);
      assert false;
    } else {
      assert (c + y)[1..] == c[1..] + y && (c + z)[1..] == c[1..] + z;
      if c[0] != BEL && !AtStringTerminator(c + y) {
        StringComplete(c[1..], y, z);
        assert |c| >= 2;
      }
    }
  }

  /** An escape that ended before something else ends there whatever follows. */
  lemma EscapeComplete(u: Tables, nl: bool, t: Token, y: Text, z: Text)
    requires t.Escape? && StopsBefore(u, nl, t, y) && y != []
    ensures StopsBefore(u, nl, t, z)
  {
    var c := t.bytes;
    assert (c + y)[0] == c[0] && (c + z)[0] == c[0];
    assert |c| >= 2;
    assert (c + y)[2..] == c[2..] + y && (c + z)[2..] == c[2..] + z;
    if c[1] == '[' as int {
      CsiComplete(c[2..], y, z);
    } else if c[1] == ']' as int || c[1] == '_' as int {
      StringComplete(c[2..], y, z);
    }
    assert (c + z)[..|c|] == c;
  }

  // ---------------------------------------------------------------- appending

  lemma DecodeAppend(s: Text, x: Text)
    requires s != [] && x != [] && !IsContinuation(x[0])
    ensures Decode(s + x) == Decode(s)
  {
  }

  lemma {:induction false} RunAppend(u: Tables, st: Scan, s: Text, x: Text)
    requires Inert(x) && Run(u, st, s).n < |s|
    ensures Run(u, st, s + x) == Run(u, st, s)
    decreases |s|
  {
    DecodeAppend(s, x);
    var d := Decode(s);
    var e := Extend(u, st, d.cp);
    if e.Some? {
      assert (s + x)[d.n..] == s[d.n..] + x;
      RunAppend(u, e.value, s[d.n..], x);
    }
  }

  lemma {:induction false} CsiAppend(s: Text, x: Text)
    requires CsiLen(s) < |s|
    ensures CsiLen(s + x) == CsiLen(s)
  {
    if !IsCsiFinal(s[0]) {
      assert (s + x)[1..] == s[1..] + x;
      CsiAppend(s[1..], x);
    }
  }

  lemma {:induction false} StringAppend(s: Text, x: Text)
    requires StringLen(s) < |s|
    ensures StringLen(s + x) == StringLen(s)
  {
    if s[0] != BEL && !AtStringTerminator(s) {
      assert (s + x)[1..] == s[1..] + x;
      StringAppend(s[1..], x);
    }
  }

  lemma EscapeAppend(s: Text, x: Text)
    requires s != [] && s[0] == ESC && EscapeLen(s) < |s|
    ensures EscapeLen(s + x) == EscapeLen(s)
  {
    assert (s + x)[2..] == s[2..] + x;
    if s[1] == '[' as int {
      CsiAppend(s[2..], x);
    } else if s[1] == ']' as int || s[1] == '_' as int {
      StringAppend(s[2..], x);
    }
  }

  lemma ClusterAppend(u: Tables, s: Text, x: Text)
    requires s != [] && Inert(x) && Cluster(u, s).n < |s|
    ensures Cluster(u, s + x) == Cluster(u, s)
  {
    hide Decode, Run;
    DecodeAppend(s, x);
    var d := Decode(s);
    assert (s + x)[d.n..] == s[d.n..] + x;
    RunAppend(u, Start(u, d.cp), s[d.n..], x);
  }

  /** A token that ends inside s ends there in s followed by an escape or a space. */
  lemma NextAppend(u: Tables, nl: bool, s: Text, x: Text)
    requires s != [] && Inert(x) && |Next(u, nl, s).bytes| < |s|
    ensures Next(u, nl, s + x) == Next(u, nl, s)
  {
    hide Cluster, EscapeLen;
    var n := |Next(u, nl, s).bytes|;
    assert (s + x)[..n] == s[..n];
    if s[0] == ESC {
      EscapeAppend(s, x);
    } else if !(nl && AtNewline(s)) {
      ClusterAppend(u, s, x);
    }
  }

  lemma DecodeShut(c: Text, y: Text, x: Text)
    requires c != [] && Decode(c + y).n <= |c| && Inert(x)
    ensures Decode(c + x) == Decode(c + y)
  {
    DecodePrefix(c + y, c);
    DecodeAppend(c, x);
  }

  /** Whatever stops before some code point stops before an escape or a space. */
  lemma ExtendInert(u: Tables, st: Scan, cp: nat, b: Byte)
    requires Extend(u, st, cp) == None && (b == ESC || b == SPACE)
    ensures Extend(u, st, b) == None
  {
    assert !st.zwj;
  }

  lemma {:induction false} RunShut(u: Tables, st: Scan, c: Text, y: Text, x: Text)
    requires y != [] && Inert(x) && Run(u, st, c + y).n == |c|
    ensures Run(u, st, c + x) == Run(u, st, c + y)
    decreases |c|
  {
    if c == [] {
      EmptyFront(c, y);
      EmptyFront(c, x);
      ExtendInert(u, st, Decode(y).cp, x[0]);
    } else {
      var d := Decode(c + y);
      DecodeShut(c, y, x);
      assert (c + y)[d.n..] == c[d.n..] + y && (c + x)[d.n..] == c[d.n..] + x;
      RunShut(u, Extend(u, st, d.cp).value, c[d.n..], y, x);
    }
  }

  lemma ClusterShut(u: Tables, c: Text, y: Text, x: Text)
    requires c != [] && y != [] && Inert(x) && Cluster(u, c + y).n == |c|
    ensures Cluster(u, c + x) == Cluster(u, c + y)
  {
    var d := Decode(c + y);
    DecodeShut(c, y, x);
    assert (c + y)[d.n..] == c[d.n..] + y && (c + x)[d.n..] == c[d.n..] + x;
    RunShut(u, Start(u, d.cp), c[d.n..], y, x);
  }

  /** A token that ended before anything at all ends before an escape or a space. */
  lemma StopsBeforeInert(u: Tables, nl: bool, t: Token, y: Text, x: Text)
    requires StopsBefore(u, nl, t, y) && y != [] && Inert(x)
    ensures StopsBefore(u, nl, t, x)
  {
    var c := t.bytes;
    assert (c + x)[..|c|] == c;
    if t.Escape? {
      EscapeComplete(u, nl, t, y, x);
    } else if t.Glyph? {
      ClusterShut(u, c, y, x);
    }
  }

  lemma ShutInside(u: Tables, a: seq<Token>, b: seq<Token>)
    requires Exact(u, true, a + b) && b != []
    ensures ShutEnd(u, a)
  {
    hide Next;
    if a != [] {
      var k := |a| - 1;
      assert a + b == a[..k] + ([a[k]] + b);
      ExactSuffix(u, true, a[..k], [a[k]] + b);
      assert ([a[k]] + b)[1..] == b;
      ExactSuffix(u, true, [a[k]], b);
      FlatHead(b);
      StopsBeforeInert(u, true, a[k], Flat(b), [ESC]);
    }
  }

  lemma StopsBeforeAppend(u: Tables, nl: bool, t: Token, f: Text, x: Text)
    requires StopsBefore(u, nl, t, f) && f != [] && Inert(x)
    ensures StopsBefore(u, nl, t, f + x)
  {
    hide Next;
    NextAppend(u, nl, t.bytes + f, x);
    Assoc(t.bytes, f, x);
  }

  lemma ShutTail(u: Tables, a: seq<Token>)
    requires a != [] && ShutEnd(u, a)
    ensures ShutEnd(u, a[1..])
  {
  }

  lemma GlueInertHead(u: Tables, a: seq<Token>, x: Text)
    requires a != [] && Exact(u, true, a) && ShutEnd(u, a) && Inert(x)
    ensures StopsBefore(u, true, a[0], Flat(a[1..]) + x)
  {
    if a[1..] == [] {
      EmptyFront(Flat(a[1..]), x);
      StopsBeforeInert(u, true, a[0], [ESC], x);
    } else {
      FlatHead(a[1..]);
      StopsBeforeAppend(u, true, a[0], Flat(a[1..]), x);
    }
  }

  /** Anything that starts with an escape or a space may follow tokens that are over. */
  lemma {:induction false} GlueInert(u: Tables, a: seq<Token>, b: seq<Token>)
    requires Exact(u, true, a) && ShutEnd(u, a)
    requires Exact(u, true, b) && Inert(Flat(b))
    ensures Exact(u, true, a + b)
  {
    if a == [] {
      EmptyFront(a, b);
    } else {
      ShutTail(u, a);
      GlueInert(u, a[1..], b);
      GlueInertHead(u, a, Flat(b));
      FlatAppend(a[1..], b);
      ConsAppend(a, b);
    }
  }

  // ---------------------------------------------------------------- spaces

  predicate IsWhitespace(t: Token) {
    t.Glyph? && t.bytes != [] && (t.bytes[0] == SPACE || t.bytes[0] == TAB)
  }

  /** Scanner states that can only be extended by joiners and modifiers. */
  predicate Plain(st: Scan) {
    !st.chain && !st.pair
  }

  lemma PlainAgree(u: Tables, a: Scan, b: Scan, cp: nat)
    requires Plain(a) && Plain(b) && !b.zwj && Extend(u, a, cp) == None
    ensures Extend(u, b, cp) == None
  {
  }

  lemma {:induction false} PlainRun(u: Tables, st: Scan, c: Text, y: Text, st2: Scan)
    requires Plain(st) && Plain(st2) && !st2.zwj
    requires y != [] && Run(u, st, c + y).n == |c|
    ensures Extend(u, st2, Decode(y).cp) == None
    decreases |c|
  {
    if c == [] {
      assert c + y == y;
      PlainAgree(u, st, st2, Decode(y).cp);
    } else {
      var d := Decode(c + y);
      assert (c + y)[d.n..] == c[d.n..] + y;
      PlainRun(u, Extend(u, st, d.cp).value, c[d.n..], y, st2);
    }
  }

  /** A single space may stand where a whitespace cluster stood. */
  lemma BlankForWhitespace(u: Tables, t: Token, ts: seq<Token>)
    requires Exact(u, true, [t] + ts) && IsWhitespace(t)
    ensures Exact(u, true, [BLANK] + ts)
  {
    assert ([t] + ts)[1..] == ts;
    var y := Flat(ts);
    if y == [] {
      BlankAlone(u);
      EmptyBack(BLANK.bytes, y);
    } else {
      WhitespaceRefuses(u, t, y);
      BlankBefore(u, y);
    }
    ExactCons(u, true, BLANK, ts);
  }

  lemma BlankAlone(u: Tables)
    ensures Next(u, true, BLANK.bytes) == BLANK
  {
    assert BLANK.bytes[1..] == [];
  }

  lemma BlankBefore(u: Tables, y: Text)
    requires y != [] && Extend(u, Start(u, SPACE), Decode(y).cp) == None
    ensures StopsBefore(u, true, BLANK, y)
  {
    var s := BLANK.bytes + y;
    assert s[1..] == y && s[..1] == [SPACE];
    assert Decode(s) == Decoded(SPACE, 1);
    assert Run(u, Start(u, SPACE), y) == Ran(0, Start(u, SPACE));
  }

  lemma WhitespaceRefuses(u: Tables, t: Token, y: Text)
    requires IsWhitespace(t) && StopsBefore(u, true, t, y) && y != []
    ensures Extend(u, Start(u, SPACE), Decode(y).cp) == None
  {
    var c := t.bytes;
    var d := Decode(c + y);
    assert d == Decoded(c[0], 1);
    assert (c + y)[1..] == c[1..] + y;
    PlainRun(u, Start(u, d.cp), c[1..], y, Start(u, SPACE));
  }

  function Blanks(k: nat): (ts: seq<Token>)
    ensures |ts| == k && forall t :: t in ts ==> t == BLANK
  {
    if k == 0 then [] else [BLANK] + Blanks(k - 1)
  }

  lemma BlankBeforeInert(u: Tables, x: Text)
    requires Inert(x)
    ensures StopsBefore(u, true, BLANK, x)
  {
    assert Extend(u, Start(u, SPACE), x[0]) == None;
    BlankBefore(u, x);
  }

  lemma {:induction false} BlanksExact(u: Tables, k: nat, b: seq<Token>)
    requires Exact(u, true, [BLANK] + b) && k > 0
    ensures Exact(u, true, Blanks(k) + b) && Inert(Flat(Blanks(k) + b))
  {
    hide Next;
    FlatHead(Blanks(k) + b);
    assert (Blanks(k) + b)[0] == BLANK;
    if k == 1 {
      assert Blanks(1) == [BLANK];
    } else {
      assert (Blanks(k) + b)[1..] == Blanks(k - 1) + b;
      BlanksExact(u, k - 1, b);
      BlankBeforeInert(u, Flat(Blanks(k - 1) + b));
    }
  }

  /** A run of spaces may be put between tokens that are over and what followed
      whitespace. */
  lemma GlueBlanks(u: Tables, a: seq<Token>, k: nat, b: seq<Token>)
    requires Exact(u, true, a) && ShutEnd(u, a) && Exact(u, true, [BLANK] + b) && k > 0
    ensures Exact(u, true, a + Blanks(k) + b)
  {
    BlanksExact(u, k, b);
    GlueInert(u, a, Blanks(k) + b);
    Assoc(a, Blanks(k), b);
  }

  // ---------------------------------------------------------------- dropped whitespace

  lemma {:induction false} RunGrows(u: Tables, st: Scan, s: Text)
    ensures Run(u, st, s).st.width >= st.width
    decreases |s|
  {
    if s != [] {
      var d := Decode(s);
      var e := Extend(u, st, d.cp);
      if e.Some? {
        RunGrows(u, e.value, s[d.n..]);
      }
    }
  }

  /** A cut-off sequence would stand for a Latin letter, and that has a width. */
  lemma ZeroDecodes(u: Tables, st: Scan, c: Text, y: Text)
    requires TableFacts(u) && c != []
    requires var next := Extend(u, st, Decode(c).cp); next.Some? && next.value.width == 0
    ensures Decode(c + y) == Decode(c)
  {
  }

  /** A cluster that comes out with no width decodes the same whatever follows it. */
  lemma {:induction false} ZeroRun(u: Tables, st: Scan, c: Text, y: Text)
    requires TableFacts(u) && y != []
    requires Run(u, st, c).n == |c| && Run(u, st, c).st.width == 0
    requires Extend(u, Run(u, st, c).st, Decode(y).cp) == None
    ensures Run(u, st, c + y) == Run(u, st, c)
    decreases |c|
  {
    hide Decode, Extend, TableFacts;
    if c == [] {
      assert c + y == y;
    } else {
      var d := Decode(c);
      var next := Extend(u, st, d.cp).value;
      RunGrows(u, next, c[d.n..]);
      ZeroDecodes(u, st, c, y);
      assert (c + y)[d.n..] == c[d.n..] + y;
      ZeroRun(u, next, c[d.n..], y);
    }
  }

  lemma {:induction false} ZeroPlain(u: Tables, st: Scan, c: Text)
    requires TableFacts(u) && Run(u, st, c).st.width == 0
    requires Plain(st) || st.width > 0
    ensures Plain(Run(u, st, c).st)
    decreases |c|
  {
    if c != [] {
      var d := Decode(c);
      var e := Extend(u, st, d.cp);
      if e.Some? {
        RunGrows(u, e.value, c[d.n..]);
        RunGrows(u, st, c);
        ZeroPlain(u, e.value, c[d.n..]);
      } else {
        assert Run(u, st, c).st == st;
      }
    }
  }

  ghost predicate Zero(t: Token) {
    t.Escape? || (t.Glyph? && t.width == 0)
  }

  /** The state in which the scanner leaves the cluster t. */
  function EndState(u: Tables, t: Token): Scan
    requires t.bytes != []
  {
    Cluster(u, t.bytes).st
  }

  lemma ZeroFirst(u: Tables, t: Token, y: Text)
    requires TableFacts(u) && Zero(t) && t.bytes != [] && Next(u, true, t.bytes) == t
    ensures Decode(t.bytes + y) == Decode(t.bytes)
  {
    if t.Glyph? {
      var d := Decode(t.bytes);
      RunGrows(u, Start(u, d.cp), t.bytes[d.n..]);
    }
  }

  lemma ZeroStops(u: Tables, t: Token, y: Text)
    requires TableFacts(u) && t.Glyph? && t.width == 0 && t.bytes != [] && Next(u, true, t.bytes) == t
    requires y != [] && Extend(u, EndState(u, t), Decode(y).cp) == None
    ensures StopsBefore(u, true, t, y)
  {
    var c := t.bytes;
    var d := Decode(c);
    ZeroFirst(u, t, y);
    assert (c + y)[d.n..] == c[d.n..] + y;
    ZeroRun(u, Start(u, d.cp), c[d.n..], y);
    assert (c + y)[..|c|] == c;
  }

  /** The end state of t refuses the code point that t stopped before. */
  lemma {:induction false} RunRefuses(u: Tables, st: Scan, c: Text, y: Text)
    requires y != [] && Run(u, st, c + y).n == |c|
    ensures Run(u, st, c) == Run(u, st, c + y)
    ensures Extend(u, Run(u, st, c).st, Decode(y).cp) == None
    decreases |c|
  {
    if c == [] {
      assert c + y == y;
    } else {
      var d := Decode(c + y);
      DecodePrefix(c + y, c);
      assert (c + y)[d.n..] == c[d.n..] + y;
      RunRefuses(u, Extend(u, st, d.cp).value, c[d.n..], y);
    }
  }

  lemma EndStateRefuses(u: Tables, t: Token, y: Text)
    requires t.Glyph? && StopsBefore(u, true, t, y) && y != []
    ensures Next(u, true, t.bytes) == t
    ensures Extend(u, EndState(u, t), Decode(y).cp) == None
  {
    var c := t.bytes;
    var d := Decode(c + y);
    DecodePrefix(c + y, c);
    assert (c + y)[d.n..] == c[d.n..] + y;
    RunRefuses(u, Start(u, d.cp), c[d.n..], y);
    assert c[..|c|] == c;
  }

  lemma ZeroBeforeZero(u: Tables, t: Token, rest: seq<Token>, x: Text)
    requires TableFacts(u) && Zero(t) && StopsBefore(u, true, t, Flat(rest))
    requires rest != [] && Zero(rest[0]) && Exact(u, true, rest)
    ensures StopsBefore(u, true, t, Flat(rest) + x)
  {
    FlatHead(rest);
    var f := rest[0].bytes;
    if t.Escape? {
      EscapeComplete(u, true, t, Flat(rest), Flat(rest) + x);
    } else {
      EndStateRefuses(u, t, Flat(rest));
      NextOfExact(u, rest);
      ZeroFirst(u, rest[0], Flat(rest[1..]));
      ZeroFirst(u, rest[0], Flat(rest[1..]) + x);
      Assoc(f, Flat(rest[1..]), x);
      ZeroStops(u, t, Flat(rest) + x);
    }
  }

  lemma GlueZeroHead(u: Tables, a: seq<Token>, b: seq<Token>)
    requires TableFacts(u) && a != []
    requires Exact(u, true, a) && ShutEnd(u, a) && (forall t :: t in a ==> Zero(t))
    requires Exact(u, true, [BLANK] + b)
    ensures StopsBefore(u, true, a[0], Flat(a[1..]) + Flat(b))
  {
    assert Zero(a[0]);
    if a[1..] == [] {
      EmptyFront(Flat(a[1..]), Flat(b));
      ZeroBeforeBlankless(u, a[0], b);
    } else {
      assert Zero(a[1..][0]);
      ZeroBeforeZero(u, a[0], a[1..], Flat(b));
    }
  }

  /** Whitespace may be dropped after escapes and clusters without width: what followed
      it does not join them. */
  lemma {:induction false} GlueZero(u: Tables, a: seq<Token>, b: seq<Token>)
    requires TableFacts(u)
    requires Exact(u, true, a) && ShutEnd(u, a) && (forall t :: t in a ==> Zero(t))
    requires Exact(u, true, [BLANK] + b)
    ensures Exact(u, true, a + b)
  {
    if a == [] {
      EmptyFront(a, b);
      assert b == ([BLANK] + b)[1..];
    } else {
      ShutTail(u, a);
      GlueZero(u, a[1..], b);
      GlueZeroHead(u, a, b);
      FlatAppend(a[1..], b);
      ConsAppend(a, b);
    }
  }

  lemma NextOfExact(u: Tables, ts: seq<Token>)
    requires Exact(u, true, ts) && ts != []
    ensures ts[0].bytes != [] && Next(u, true, ts[0].bytes) == ts[0]
  {
    StopsBeforePrefix(u, true, ts[0], Flat(ts[1..]), []);
    assert ts[0].bytes + [] == ts[0].bytes;
  }

  lemma ZeroBeforeBlankless(u: Tables, t: Token, b: seq<Token>)
    requires TableFacts(u) && Zero(t) && Shut(u, t)
    requires Exact(u, true, [BLANK] + b)
    ensures StopsBefore(u, true, t, Flat(b))
  {
    assert ([BLANK] + b)[1..] == b;
    var x := Flat(b);
    if t.Escape? {
      EscapeComplete(u, true, t, [ESC], x);
    } else {
      EndStateRefuses(u, t, [ESC]);
      if x == [] {
        assert t.bytes + x == t.bytes;
      } else {
        EndStateRefuses(u, BLANK, x);
        var d := Decode(t.bytes);
        RunGrows(u, Start(u, d.cp), t.bytes[d.n..]);
        ZeroPlain(u, Start(u, d.cp), t.bytes[d.n..]);
        PlainAgree(u, EndState(u, BLANK), EndState(u, t), Decode(x).cp);
        ZeroStops(u, t, x);
      }
    }
  }
}
