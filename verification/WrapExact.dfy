/**
 Every output line scans, byte by byte, to exactly the tokens the wrapper put on it:
 nothing it inserted or dropped makes neighbours run together.
 */
module WrapExact {
  import opened Bytes
  import opened Seqs
  import opened Scanner
  import opened Locality
  import opened Glue
  import opened Sgr
  import opened WrapModel

  ghost predicate ShutEscapes(u: Tables, ts: seq<Token>) {
    forall t :: t in ts ==> t.Escape? && Shut(u, t)
  }

  ghost predicate LinesExact(u: Tables, lines: seq<Line>) {
    forall l :: l in lines ==> Exact(u, true, LineTokens(l))
  }

  ghost predicate MemoryShut(u: Tables, a: Active) {
    ShutEscapes(u, a.sgr) && ShutEscapes(u, a.link)
  }

  // ---------------------------------------------------------------- remembered sequences are complete

  lemma {:induction false} CsiFinished(c: Text, z: Text)
    requires c != [] && CsiLen(c) == |c| && IsCsiFinal(c[|c| - 1])
    ensures CsiLen(c + z) == |c|
  {
    if !IsCsiFinal(c[0]) {
      assert (c + z)[1..] == c[1..] + z;
      CsiFinished(c[1..], z);
    }
  }

  lemma {:induction false} StringFinished(c: Text, z: Text)
    requires c != [] && StringLen(c) == |c|
    requires c[|c| - 1] == BEL || (|c| >= 2 && c[|c| - 2] == ESC && c[|c| - 1] == '\\' as int)
    ensures StringLen(c + z) == |c|
  {
    if c[0] != BEL && !AtStringTerminator(c) {
      assert (c + z)[1..] == c[1..] + z;
      StringFinished(c[1..], z);
    }
  }

  lemma CsiShut(u: Tables, e: Text)
    requires IsCsiM(e) && EscapeLen(e) == |e|
    ensures Shut(u, Escape(e))
  {
    assert (e + [ESC])[2..] == e[2..] + [ESC];
    CsiFinished(e[2..], [ESC]);
    assert (e + [ESC])[..|e|] == e;
  }

  lemma OscShut(u: Tables, e: Text)
    requires IsOsc8(e) && OscEnd(e).Some? && EscapeLen(e) == |e|
    ensures Shut(u, Escape(e))
  {
    assert (e + [ESC])[2..] == e[2..] + [ESC];
    StringFinished(e[2..], [ESC]);
    assert (e + [ESC])[..|e|] == e;
  }

  lemma RememberShut(u: Tables, a: Active, e: Text)
    requires MemoryShut(u, a) && e != [] && e[0] == ESC && EscapeLen(e) == |e|
    ensures MemoryShut(u, Remember(a, e))
  {
    hide StopsBefore, EscapeLen;
    if IsCsiM(e) {
      CsiShut(u, e);
    } else if IsOsc8(e) && OscEnd(e).Some? {
      OscShut(u, e);
    }
  }

  /** The same for the byte-by-byte reading. */
  lemma {:induction false} RememberTextShut(u: Tables, a: Active, text: Text)
    requires MemoryShut(u, a)
    ensures MemoryShut(u, RememberText(a, text))
    decreases |text|
  {
    hide Shut, Remember;
    if text != [] {
      if text[0] == ESC {
        var n := EscapeLen(text);
        EscapeAlone(text);
        RememberShut(u, a, text[..n]);
        RememberTextShut(u, Remember(a, text[..n]), text[n..]);
      } else {
        RememberTextShut(u, a, text[1..]);
      }
    }
  }

  lemma EscapeAlone(s: Text)
    requires s != [] && s[0] == ESC
    ensures EscapeLen(s[..EscapeLen(s)]) == EscapeLen(s)
  {
    var n := EscapeLen(s);
    if |s| > 1 {
      if s[1] == '[' as int {
        assert s[..n][2..] <= s[2..];
        CsiPrefix(s[2..], s[..n][2..]);
      } else if s[1] == ']' as int || s[1] == '_' as int {
        assert s[..n][2..] <= s[2..];
        StringPrefix(s[2..], s[..n][2..]);
      }
    }
  }

  lemma EscapeOfExact(u: Tables, nl: bool, t: Token, x: Text)
    requires t.Escape? && StopsBefore(u, nl, t, x)
    ensures t.bytes[0] == ESC && EscapeLen(t.bytes) == |t.bytes|
  {
    EscapeAlone(t.bytes + x);
    assert (t.bytes + x)[..|t.bytes|] == t.bytes;
  }

  // ---------------------------------------------------------------- lines

  /** Anything may follow complete escapes. */
  lemma {:induction false} AfterEscapes(u: Tables, ts: seq<Token>, x: seq<Token>)
    requires ShutEscapes(u, ts) && Exact(u, true, x)
    ensures Exact(u, true, ts + x)
  {
    hide Next;
    if ts == [] {
      EmptyFront(ts, x);
    } else {
      AfterEscapes(u, ts[1..], x);
      assert ts[0] in ts;
      EscapeComplete(u, true, ts[0], [ESC], Flat(ts[1..] + x));
      ConsAppend(ts, x);
    }
  }

  lemma FixedShut(u: Tables)
    ensures Shut(u, UNDERLINE_OFF) && Shut(u, CLOSE_BEL) && Shut(u, CLOSE_ST)
  {
    ConcreteLengths();
    CsiShut(u, UNDERLINE_OFF.bytes);
    OscShut(u, CLOSE_BEL.bytes);
    OscShut(u, CLOSE_ST.bytes);
  }

  lemma {:induction false} CsiScan(c: Text)
    requires c != [] && IsCsiFinal(c[|c| - 1])
    requires forall k :: 0 <= k < |c| - 1 ==> !IsCsiFinal(c[k])
    ensures CsiLen(c) == |c|
  {
    if |c| > 1 {
      CsiScan(c[1..]);
    }
  }

  /** An OSC text without ESC or BEL, then its terminator. */
  lemma {:induction false} StringScan(c: Text, end: Text)
    requires forall k :: 0 <= k < |c| ==> c[k] != ESC && c[k] != BEL
    requires end == [BEL] || end == [ESC, '\\' as int]
    ensures StringLen(c + end) == |c + end|
  {
    if c == [] {
      EmptyFront(c, end);
    } else {
      ConsAppend(c, end);
      StringScan(c[1..], end);
    }
  }

  lemma ConcreteLengths()
    ensures EscapeLen(UNDERLINE_OFF.bytes) == 5
    ensures EscapeLen(CLOSE_BEL.bytes) == 6
    ensures EscapeLen(CLOSE_ST.bytes) == 7
  {
    CsiScan(UNDERLINE_OFF.bytes[2..]);
    var c := ['8' as int, ';' as int, ';' as int];
    StringScan(c, [BEL]);
    StringScan(c, [ESC, '\\' as int]);
    assert CLOSE_BEL.bytes[2..] == c + [BEL];
    assert CLOSE_ST.bytes[2..] == c + [ESC, '\\' as int];
  }

  lemma ClosingShut(u: Tables, a: Active)
    ensures ShutEscapes(u, Closing(a))
  {
    FixedShut(u);
  }

  lemma EscapesInert(u: Tables, ts: seq<Token>)
    requires ShutEscapes(u, ts) && ts != []
    ensures Inert(Flat(ts))
  {
    assert ts[0] in ts;
    FlatHead(ts);
    EscapeOfExact(u, true, ts[0], [ESC]);
  }

  /** A line whose tokens are exact and over stays exact when it is closed. */
  lemma CloseExact(u: Tables, w: Wrap, final: bool)
    requires Exact(u, true, w.open + w.body)
    requires final || ShutEnd(u, w.open + w.body)
    ensures Exact(u, true, LineTokens(CurrentLine(w, final)))
  {
    var close := CurrentLine(w, final).close;
    if close == [] {
      EmptyBack(w.open + w.body, close);
    } else {
      ClosingShut(u, w.active);
      EscapesInert(u, close);
      AfterEscapes(u, close, []);
      EmptyBack(close, []);
      GlueInert(u, w.open + w.body, close);
    }
  }

  /** The current line, followed by what is still to be placed, scans to itself. */
  ghost predicate Joined(u: Tables, w: Wrap, rest: seq<Token>) {
    && Exact(u, true, w.open + w.body + rest)
    && LinesExact(u, w.lines)
    && MemoryShut(u, w.active)
    && ShutEscapes(u, w.open)
  }

  lemma PushLineJoined(u: Tables, w: Wrap, hard: bool, rest: seq<Token>)
    requires Exact(u, true, w.open + w.body) && ShutEnd(u, w.open + w.body)
    requires LinesExact(u, w.lines) && MemoryShut(u, w.active)
    requires Exact(u, true, rest)
    ensures Joined(u, PushLine(w, false, hard), rest)
  {
    hide Exact, Shut;
    CloseExact(u, w, false);
    AfterEscapes(u, Opening(w.active), rest);
    EmptyBack(Opening(w.active), []);
  }

  /** A line may be broken wherever something is still to be placed. */
  lemma BreakJoined(u: Tables, w: Wrap, hard: bool, rest: seq<Token>)
    requires Joined(u, w, rest) && rest != []
    ensures Joined(u, PushLine(w, false, hard), rest)
  {
    hide Shut;
    var line := w.open + w.body;
    ExactPrefix(u, true, line, rest);
    ExactSuffix(u, true, line, rest);
    ShutInside(u, line, rest);
    PushLineJoined(u, w, hard, rest);
  }

  lemma AppendPieceJoined(u: Tables, w: Wrap, piece: seq<Token>, width: nat, rest: seq<Token>)
    requires Joined(u, w, piece + rest) && piece != []
    ensures Joined(u, AppendPiece(w, piece, width), rest)
  {
    hide Exact, LinesExact, MemoryShut;
    var w1 := if width > 0 && Overflows(w, width) then SoftBreak(w) else w;
    if width > 0 && Overflows(w, width) {
      BreakJoined(u, w, false, piece + rest);
    }
    assert w1.open + w1.body + (piece + rest) == w1.open + (w1.body + piece) + rest;
  }

  lemma NewlineJoined(u: Tables, w: Wrap, t: Token, rest: seq<Token>)
    requires Joined(u, w, [t] + rest)
    ensures Joined(u, PushLine(w, false, true), rest)
  {
    hide Shut, LinesExact, MemoryShut;
    var line := w.open + w.body;
    ExactPrefix(u, true, line, [t] + rest);
    ExactSuffix(u, true, line, [t] + rest);
    ExactSuffix(u, true, [t], rest);
    ShutInside(u, line, [t] + rest);
    PushLineJoined(u, w, true, rest);
  }

  lemma PlaceTokenJoined(u: Tables, w: Wrap, t: Token, rest: seq<Token>)
    requires Joined(u, w, [t] + rest)
    ensures Joined(u, PlaceToken(w, t), rest)
  {
    hide Exact, LinesExact, MemoryShut;
    match t
    case Escape(e) =>
      AppendPieceJoined(u, w, [t], 0, rest);
      TokenOfJoined(u, w, t, rest);
      RememberShut(u, w.active, e);
    case Newline(_) =>
      NewlineJoined(u, w, t, rest);
    case Glyph(_, width) =>
      AppendPieceJoined(u, w, [t], width, rest);
  }

  lemma TokenOfJoined(u: Tables, w: Wrap, t: Token, rest: seq<Token>)
    requires Joined(u, w, [t] + rest) && t.Escape?
    ensures t.bytes != [] && t.bytes[0] == ESC && EscapeLen(t.bytes) == |t.bytes|
  {
    SuffixOfJoined(u, w, [t] + rest);
    EscapeOfExact(u, true, t, Flat(([t] + rest)[1..]));
  }

  lemma SuffixOfJoined(u: Tables, w: Wrap, rest: seq<Token>)
    requires Joined(u, w, rest)
    ensures Exact(u, true, rest)
  {
    ExactSuffix(u, true, w.open + w.body, rest);
  }

  lemma {:induction false} PlaceTokensJoined(u: Tables, w: Wrap, ts: seq<Token>, rest: seq<Token>)
    requires Joined(u, w, ts + rest)
    ensures Joined(u, PlaceTokens(w, ts), rest)
    decreases |ts|
  {
    hide Joined, PlaceToken;
    if ts == [] {
      EmptyFront(ts, rest);
    } else {
      ConsAppend(ts, rest);
      PlaceTokenJoined(u, w, ts[0], ts[1..] + rest);
      PlaceTokensJoined(u, PlaceToken(w, ts[0]), ts[1..], rest);
    }
  }

  lemma FinishExact(u: Tables, w: Wrap)
    requires Exact(u, true, w.open + w.body) && LinesExact(u, w.lines)
    ensures LinesExact(u, Finish(w).lines)
  {
    CloseExact(u, w, true);
  }

  /** In preserve mode every output line scans to its own tokens. */
  lemma PreserveExact(u: Tables, target: nat, text: Text)
    ensures LinesExact(u, WrapPreserve(target, Tokens(u, true, text)))
  {
    var ts := Tokens(u, true, text);
    TokensCover(u, true, text);
    var w := Init(target);
    EmptyFront(w.open + w.body, ts + []);
    EmptyBack(ts, []);
    PlaceTokensJoined(u, w, ts, []);
    var done := PlaceTokens(w, ts);
    EmptyBack(done.open + done.body, []);
    FinishExact(u, done);
  }
}
