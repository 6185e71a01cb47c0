/**
 Locality of the scanner. `Exact(u, nl, ts)` says that scanning the bytes of ts gives
 back ts, token by token; the lemmas say when that survives cutting and gluing.
 */
module Locality {
  import opened Bytes
  import opened Scanner

  ghost predicate Exact(u: Tables, nl: bool, ts: seq<Token>) {
    ts != [] ==> StopsBefore(u, nl, ts[0], Flat(ts[1..])) && Exact(u, nl, ts[1..])
  }

  /** The bytes of t are followed by x, and the scanner still stops right after t. */
  ghost predicate StopsBefore(u: Tables, nl: bool, t: Token, x: Text) {
    t.bytes != [] && Next(u, nl, t.bytes + x) == t
  }

  // ---------------------------------------------------------------- cover

  lemma {:induction false} FlatAppend(a: seq<Token>, b: seq<Token>)
    ensures Flat(a + b) == Flat(a) + Flat(b)
  {
    if a == [] {
      assert a + b == b;
    } else {
      assert (a + b)[1..] == a[1..] + b;
      FlatAppend(a[1..], b);
    }
  }

  lemma {:induction false} WidthAppend(a: seq<Token>, b: seq<Token>)
    ensures Width(a + b) == Width(a) + Width(b)
  {
    if a == [] {
      assert a + b == b;
    } else {
      assert (a + b)[1..] == a[1..] + b;
      WidthAppend(a[1..], b);
    }
  }

  /** Escapes, newlines and clusters cover any byte string exactly, and none is empty. */
  lemma {:induction false} TokensCover(u: Tables, nl: bool, s: Text)
    ensures Flat(Tokens(u, nl, s)) == s
    ensures Exact(u, nl, Tokens(u, nl, s))
    ensures forall t :: t in Tokens(u, nl, s) ==> t.bytes != []
    decreases |s|
  {
    if s != [] {
      hide Next, Exact, Flat, StopsBefore;
      var t := Next(u, nl, s);
      var x := s[|t.bytes|..];
      TokensCover(u, nl, x);
      assert s == t.bytes + x;
      NextStops(u, nl, s);
      ExactCons(u, nl, t, Tokens(u, nl, x));
      FlatCons(t, Tokens(u, nl, x));
    }
  }

  lemma NextStops(u: Tables, nl: bool, s: Text)
    requires s != []
    ensures var t := Next(u, nl, s); StopsBefore(u, nl, t, s[|t.bytes|..])
  {
    hide Next;
    var t := Next(u, nl, s);
    assert t.bytes + s[|t.bytes|..] == s;
  }

  lemma FlatCons(t: Token, ts: seq<Token>)
    ensures Flat([t] + ts) == t.bytes + Flat(ts)
  {
    assert ([t] + ts)[1..] == ts;
  }

  lemma FlatHead(ts: seq<Token>)
    requires ts != []
    ensures Flat(ts) == ts[0].bytes + Flat(ts[1..])
  {
  }

  lemma TokensAfter(u: Tables, nl: bool, t: Token, x: Text)
    requires StopsBefore(u, nl, t, x)
    ensures Tokens(u, nl, t.bytes + x) == [t] + Tokens(u, nl, x)
  {
    hide Next;
    var s := t.bytes + x;
    assert s[|t.bytes|..] == x;
  }

  lemma {:induction false} ExactScans(u: Tables, nl: bool, ts: seq<Token>)
    requires Exact(u, nl, ts)
    ensures Tokens(u, nl, Flat(ts)) == ts
  {
    hide StopsBefore, Next;
    if ts != [] {
      hide Tokens;
      ExactScans(u, nl, ts[1..]);
      TokensAfter(u, nl, ts[0], Flat(ts[1..]));
    }
  }

  /** Exact token lists are just the ones that their own bytes scan to. */
  lemma ExactTokens(u: Tables, nl: bool, ts: seq<Token>)
    ensures Exact(u, nl, ts) <==> Tokens(u, nl, Flat(ts)) == ts
  {
    hide Exact, Tokens, Flat;
    if Exact(u, nl, ts) {
      ExactScans(u, nl, ts);
    }
    TokensCover(u, nl, Flat(ts));
  }

  lemma ExactCons(u: Tables, nl: bool, t: Token, ts: seq<Token>)
    requires Exact(u, nl, ts) && StopsBefore(u, nl, t, Flat(ts))
    ensures Exact(u, nl, [t] + ts)
  {
    assert ([t] + ts)[1..] == ts;
  }

  lemma {:induction false} ExactSuffix(u: Tables, nl: bool, a: seq<Token>, b: seq<Token>)
    requires Exact(u, nl, a + b)
    ensures Exact(u, nl, b)
  {
    if a == [] {
      assert a + b == b;
    } else {
      assert (a + b)[1..] == a[1..] + b;
      ExactSuffix(u, nl, a[1..], b);
    }
  }

  // ---------------------------------------------------------------- prefixes

  /** What follows the front code point cannot change how it decodes. */
  lemma DecodePrefix(s: Text, p: Text)
    requires p != [] && p <= s && Decode(s).n <= |p|
    ensures Decode(p) == Decode(s)
  {
  }

  lemma {:induction false} RunPrefix(u: Tables, st: Scan, s: Text, p: Text)
    requires p <= s && Run(u, st, s).n <= |p|
    requires Run(u, st, s).n < |p| ==> Decode(s[Run(u, st, s).n..]).n <= |p| - Run(u, st, s).n
    ensures Run(u, st, p) == Run(u, st, s)
    decreases |s|
  {
    if p != [] {
      var d := Decode(s);
      DecodePrefix(s, p);
      var e := Extend(u, st, d.cp);
      if e.Some? {
        var r := Run(u, e.value, s[d.n..]);
        assert s[Run(u, st, s).n..] == s[d.n..][r.n..];
        RunPrefix(u, e.value, s[d.n..], p[d.n..]);
      }
    }
  }

  lemma {:induction false} CsiPrefix(s: Text, p: Text)
    requires p <= s && CsiLen(s) <= |p|
    ensures CsiLen(p) == CsiLen(s)
  {
    if p != [] && !IsCsiFinal(s[0]) {
      CsiPrefix(s[1..], p[1..]);
    }
  }

  lemma {:induction false} StringPrefix(s: Text, p: Text)
    requires p <= s && StringLen(s) <= |p|
    ensures StringLen(p) == StringLen(s)
  {
    if p != [] && s[0] != BEL && !AtStringTerminator(s) {
      StringPrefix(s[1..], p[1..]);
    }
  }

  lemma EscapePrefix(s: Text, p: Text)
    requires p != [] && p <= s && s[0] == ESC && EscapeLen(s) <= |p|
    ensures EscapeLen(p) == EscapeLen(s)
  {
    if |s| > 1 && |p| > 1 {
      if s[1] == '[' as int {
        CsiPrefix(s[2..], p[2..]);
      } else if s[1] == ']' as int || s[1] == '_' as int {
        StringPrefix(s[2..], p[2..]);
      }
    }
  }

  lemma ClusterPrefix(u: Tables, s: Text, p: Text)
    requires p != [] && p <= s && Cluster(u, s).n <= |p|
    requires var n := Cluster(u, s).n; n < |p| ==> Decode(s[n..]).n <= |p| - n
    ensures Cluster(u, p) == Cluster(u, s)
  {
    hide Decode, Run;
    var d := Decode(s);
    DecodePrefix(s, p);
    var r := Run(u, Start(u, d.cp), s[d.n..]);
    assert s[d.n + r.n..] == s[d.n..][r.n..];
    RunPrefix(u, Start(u, d.cp), s[d.n..], p[d.n..]);
  }

  /** Cutting after the front token, or after one more code point, leaves it as it is. */
  lemma NextPrefix(u: Tables, nl: bool, s: Text, p: Text)
    requires p != [] && p <= s
    requires |Next(u, nl, s).bytes| <= |p|
    requires var n := |Next(u, nl, s).bytes|; n < |p| ==> Decode(s[n..]).n <= |p| - n
    ensures Next(u, nl, p) == Next(u, nl, s)
  {
    hide Decode, Cluster, EscapeLen;
    var t := Next(u, nl, s);
    assert p[..|t.bytes|] == s[..|t.bytes|];
    if s[0] == ESC {
      EscapePrefix(s, p);
    } else if !(nl && AtNewline(s)) {
      ClusterPrefix(u, s, p);
    }
  }

  /** The front token contains the front code point. */
  lemma NextContainsDecode(u: Tables, nl: bool, s: Text)
    requires s != []
    ensures Decode(s).n <= |Next(u, nl, s).bytes|
  {
  }

  /** A token that ends where another begins still ends there when what follows is
      cut, as long as that other token stays whole. */
  lemma StopsBeforePrefix(u: Tables, nl: bool, t: Token, x: Text, p: Text)
    requires StopsBefore(u, nl, t, x) && p <= x
    requires p != [] ==> |Next(u, nl, x).bytes| <= |p|
    ensures StopsBefore(u, nl, t, p)
  {
    var s := t.bytes + x;
    assert s[|t.bytes|..] == x;
    if p != [] {
      NextContainsDecode(u, nl, x);
    }
    NextPrefix(u, nl, s, t.bytes + p);
  }

  lemma {:induction false} ExactPrefix(u: Tables, nl: bool, a: seq<Token>, b: seq<Token>)
    requires Exact(u, nl, a + b)
    ensures Exact(u, nl, a)
  {
    if a != [] {
      var rest := a[1..] + b;
      assert (a + b)[1..] == rest;
      ExactPrefix(u, nl, a[1..], b);
      FlatAppend(a[1..], b);
      if a[1..] != [] {
        assert rest[0] == a[1];
        FlatHead(rest);
        FlatHead(a[1..]);
        assert Next(u, nl, Flat(rest)) == a[1];
      } else {
        assert Flat(a[1..]) == [];
      }
      StopsBeforePrefix(u, nl, a[0], Flat(rest), Flat(a[1..]));
    }
  }

  /** Scanner locality: a text cut at any token boundary scans to the same tokens in
      two halves, and the widths of the halves add up. */
  lemma ScanLocality(u: Tables, nl: bool, s: Text, k: nat)
    requires k <= |Tokens(u, nl, s)|
    ensures var ts := Tokens(u, nl, s);
            var cut := |Flat(ts[..k])|;
            && cut <= |s|
            && Tokens(u, nl, s[..cut]) == ts[..k]
            && Tokens(u, nl, s[cut..]) == ts[k..]
            && Width(ts) == Width(Tokens(u, nl, s[..cut])) + Width(Tokens(u, nl, s[cut..]))
  {
    hide Tokens, Exact, Flat, Width;
    var ts := Tokens(u, nl, s);
    TokensCover(u, nl, s);
    assert ts[..k] + ts[k..] == ts;
    FlatAppend(ts[..k], ts[k..]);
    WidthAppend(ts[..k], ts[k..]);
    ExactPrefix(u, nl, ts[..k], ts[k..]);
    ExactSuffix(u, nl, ts[..k], ts[k..]);
    ExactTokens(u, nl, ts[..k]);
    ExactTokens(u, nl, ts[k..]);
    var cut := |Flat(ts[..k])|;
    assert s == Flat(ts[..k]) + Flat(ts[k..]);
    assert s[..cut] == Flat(ts[..k]) && s[cut..] == Flat(ts[k..]);
  }
}
