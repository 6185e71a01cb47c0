/**
 Widths of output lines, in both modes, and the reason for every soft break.
 */
module WrapWidth {
  import opened Bytes
  import opened Seqs
  import opened Scanner
  import opened Locality
  import opened Glue
  import opened Sgr
  import opened WrapModel

  /** The tokens of positive width. */
  function Count(ts: seq<Token>): nat {
    if ts == [] then 0 else (if TokenWidth(ts[0]) > 0 then 1 else 0) + Count(ts[1..])
  }

  ghost predicate Escapes(ts: seq<Token>) {
    forall t :: t in ts ==> t.Escape?
  }

  ghost predicate NoNewlines(ts: seq<Token>) {
    forall t :: t in ts ==> !t.Newline?
  }

  lemma {:induction false} CountAppend(a: seq<Token>, b: seq<Token>)
    ensures Count(a + b) == Count(a) + Count(b)
  {
    if a == [] {
      EmptyFront(a, b);
    } else {
      ConsAppend(a, b);
      CountAppend(a[1..], b);
    }
  }

  lemma {:induction false} CountWidth(ts: seq<Token>)
    ensures Count(ts) == 0 <==> Width(ts) == 0
  {
    if ts != [] {
      CountWidth(ts[1..]);
    }
  }

  lemma {:induction false} EscapesWidth(ts: seq<Token>)
    requires Escapes(ts)
    ensures Width(ts) == 0
  {
    if ts != [] {
      assert ts[0] in ts;
      EscapesWidth(ts[1..]);
    }
  }

  lemma {:induction false} ZeroWidthTokens(ts: seq<Token>)
    requires Width(ts) == 0 && NoNewlines(ts)
    ensures forall t :: t in ts ==> Zero(t)
  {
    if ts != [] {
      assert ts[0] in ts;
      ZeroWidthTokens(ts[1..]);
    }
  }

  lemma {:induction false} BlanksWidth(k: nat)
    ensures Width(Blanks(k)) == k && Count(Blanks(k)) == k && NoNewlines(Blanks(k))
  {
    if k > 0 {
      BlanksWidth(k - 1);
      assert Blanks(k)[1..] == Blanks(k - 1);
    }
  }

  lemma OneToken(t: Token)
    ensures Width([t]) == TokenWidth(t) && Count([t]) == if TokenWidth(t) > 0 then 1 else 0
  {
    assert [t][1..] == [];
  }

  /** The counters of the wrapper are the widths of what they stand for. */
  ghost predicate Measured(w: Wrap) {
    && w.lineWidth == Width(w.body) && w.wordWidth == Width(w.word)
    && Escapes(w.open) && NoNewlines(w.body) && NoNewlines(w.word)
    && Escapes(w.active.sgr) && Escapes(w.active.link)
    && forall l :: l in w.lines ==> Escapes(l.open) && Escapes(l.close) && NoNewlines(l.body)
  }

  lemma LineWidth(l: Line)
    requires Escapes(l.open) && Escapes(l.close)
    ensures Width(LineTokens(l)) == Width(l.body)
  {
    WidthAppend(l.open + l.body, l.close);
    WidthAppend(l.open, l.body);
    EscapesWidth(l.open);
    EscapesWidth(l.close);
  }

  lemma AddMeasured(w: Wrap, piece: seq<Token>, width: nat)
    requires Measured(w) && width == Width(piece) && NoNewlines(piece)
    ensures Measured(Add(w, piece, width))
  {
    WidthAppend(w.body, piece);
  }

  lemma SoftBreakMeasured(w: Wrap)
    requires Measured(w)
    ensures Measured(SoftBreak(w))
  {
  }

  lemma AppendPieceMeasured(w: Wrap, piece: seq<Token>, width: nat)
    requires Measured(w) && width == Width(piece) && NoNewlines(piece)
    ensures Measured(AppendPiece(w, piece, width))
  {
    hide Measured;
    if width > 0 && Overflows(w, width) {
      SoftBreakMeasured(w);
      AddMeasured(SoftBreak(w), piece, width);
    } else {
      AddMeasured(w, piece, width);
    }
  }

  lemma PlaceTokenMeasured(w: Wrap, t: Token)
    requires Measured(w)
    ensures Measured(PlaceToken(w, t))
  {
    OneToken(t);
    match t
    case Escape(e) => AddMeasured(w, [t], 0);
    case Newline(_) =>
    case Glyph(_, width) => AppendPieceMeasured(w, [t], width);
  }

  lemma {:induction false} PlaceTokensMeasured(w: Wrap, ts: seq<Token>)
    requires Measured(w)
    ensures Measured(PlaceTokens(w, ts))
    decreases |ts|
  {
    hide Measured, PlaceToken;
    if ts != [] {
      PlaceTokenMeasured(w, ts[0]);
      PlaceTokensMeasured(PlaceToken(w, ts[0]), ts[1..]);
    }
  }

  lemma {:induction false} RememberTextEscapes(a: Active, text: Text)
    requires Escapes(a.sgr) && Escapes(a.link)
    ensures Escapes(RememberText(a, text).sgr) && Escapes(RememberText(a, text).link)
    decreases |text|
  {
    hide Resets, Underline, IndexOf, OscEnd;
    if text != [] {
      if text[0] == ESC {
        var n := EscapeLen(text);
        RememberTextEscapes(Remember(a, text[..n]), text[n..]);
      } else {
        RememberTextEscapes(a, text[1..]);
      }
    }
  }

  lemma PlaceWordMeasured(w: Wrap)
    requires Measured(w)
    ensures Measured(PlaceWord(w).(word := [], wordWidth := 0))
  {
    hide RememberText;
    if w.wordWidth <= w.target {
      AppendPieceMeasured(w, w.word, w.wordWidth);
      RememberTextEscapes(AppendPiece(w, w.word, w.wordWidth).active, Flat(w.word));
    } else {
      PlaceTokensMeasured(w, w.word);
    }
  }

  // ---------------------------------------------------------------- how wide a line may be

  ghost predicate OnlyBlanks(ts: seq<Token>) {
    forall t :: t in ts && TokenWidth(t) > 0 ==> t == BLANK
  }

  /** Within the target, or a single cluster too wide for any line, or (in word mode) the
      leading whitespace of a source line. */
  ghost predicate Allowed(words: bool, target: nat, body: seq<Token>, hard: bool) {
    Width(body) <= target || Count(body) == 1 || (words && hard && OnlyBlanks(body))
  }

  ghost predicate WidthsAllowed(words: bool, w: Wrap) {
    && (forall l :: l in w.lines ==> Allowed(words, w.target, l.body, l.hard))
    && Allowed(words, w.target, w.body, w.hard)
  }

  /** A piece that is added is narrow enough for a line, or a single token. */
  lemma AppendPieceAllowed(words: bool, w: Wrap, piece: seq<Token>, width: nat)
    requires Measured(w) && WidthsAllowed(words, w)
    requires width == Width(piece) && (width <= w.target || Count(piece) == 1)
    ensures WidthsAllowed(words, AppendPiece(w, piece, width))
  {
    var w1 := if width > 0 && Overflows(w, width) then SoftBreak(w) else w;
    WidthAppend(w1.body, piece);
    CountAppend(w1.body, piece);
    CountWidth(piece);
    CountWidth(w1.body);
    if width == 0 && words {
      ZeroKeepsBlanks(w1.body, piece);
    }
    assert forall l :: l in w1.lines ==> Allowed(words, w.target, l.body, l.hard);
  }

  lemma {:induction false} PositiveInZero(ts: seq<Token>, t: Token)
    requires Width(ts) == 0 && t in ts
    ensures TokenWidth(t) == 0
  {
    if t != ts[0] {
      PositiveInZero(ts[1..], t);
    }
  }

  lemma ZeroKeepsBlanks(body: seq<Token>, piece: seq<Token>)
    requires Width(piece) == 0
    ensures OnlyBlanks(body) ==> OnlyBlanks(body + piece)
  {
    forall t | t in piece
      ensures TokenWidth(t) == 0
    {
      PositiveInZero(piece, t);
    }
  }

  lemma PlaceTokenAllowed(words: bool, w: Wrap, t: Token)
    requires Measured(w) && WidthsAllowed(words, w)
    ensures WidthsAllowed(words, PlaceToken(w, t))
  {
    OneToken(t);
    if t.Newline? {
      assert forall l :: l in PlaceToken(w, t).lines ==> l in w.lines || l == CurrentLine(w, false);
    } else {
      AppendPieceAllowed(words, w, [t], TokenWidth(t));
    }
  }

  lemma {:induction false} PlaceTokensAllowed(words: bool, w: Wrap, ts: seq<Token>)
    requires Measured(w) && WidthsAllowed(words, w)
    ensures Measured(PlaceTokens(w, ts)) && WidthsAllowed(words, PlaceTokens(w, ts))
    ensures PlaceTokens(w, ts).target == w.target
    decreases |ts|
  {
    hide Measured, WidthsAllowed, Remember, Closing;
    if ts != [] {
      PlaceTokenMeasured(w, ts[0]);
      PlaceTokenAllowed(words, w, ts[0]);
      PlaceTokensAllowed(words, PlaceToken(w, ts[0]), ts[1..]);
    }
  }

  lemma FinishAllowed(words: bool, w: Wrap)
    requires Measured(w) && WidthsAllowed(words, w)
    ensures forall l :: l in Finish(w).lines ==>
                          && Allowed(words, w.target, l.body, l.hard)
                          && Escapes(l.open) && Escapes(l.close) && NoNewlines(l.body)
  {
    assert forall l :: l in Finish(w).lines ==> l in w.lines || l == CurrentLine(w, true);
  }

  // ---------------------------------------------------------------- soft breaks in preserve mode

  /** The soft break before line b was forced: its first token would not have fitted. */
  ghost predicate ForcedBreak(target: nat, a: seq<Token>, b: seq<Token>) {
    && b != [] && TokenWidth(b[0]) > 0
    && Width(a) > 0 && Width(a) + TokenWidth(b[0]) > target
  }

  ghost predicate BreaksForced(target: nat, lines: seq<Line>) {
    && (lines != [] ==> lines[0].hard)
    && forall i :: 0 < i < |lines| && !lines[i].hard ==> ForcedBreak(target, lines[i - 1].body, lines[i].body)
  }

  function AllLines(w: Wrap): seq<Line> {
    w.lines + [CurrentLine(w, true)]
  }

  lemma GrowForced(target: nat, lines: seq<Line>, l: Line, l2: Line)
    requires BreaksForced(target, lines + [l])
    requires l2.hard == l.hard && l.body <= l2.body
    ensures BreaksForced(target, lines + [l2])
  {
    var a, b := lines + [l], lines + [l2];
    assert forall i :: 0 <= i < |lines| ==> a[i] == b[i];
    assert a[|lines|] == l && b[|lines|] == l2;
  }

  lemma NextForced(target: nat, lines: seq<Line>, l: Line, l2: Line, l3: Line)
    requires BreaksForced(target, lines + [l])
    requires l2.hard == l.hard && l2.body == l.body
    requires l3.hard || ForcedBreak(target, l2.body, l3.body)
    ensures BreaksForced(target, lines + [l2] + [l3])
  {
    GrowForced(target, lines, l, l2);
    var a, b := lines + [l2], lines + [l2] + [l3];
    assert forall i :: 0 <= i < |a| ==> a[i] == b[i];
    assert b[|a|] == l3 && b[|a| - 1] == l2;
  }

  lemma PlaceTokenForced(w: Wrap, t: Token)
    requires Measured(w) && BreaksForced(w.target, AllLines(w))
    ensures BreaksForced(w.target, AllLines(PlaceToken(w, t)))
  {
    hide BreaksForced, Closing, Remember;
    var w2 := PlaceToken(w, t);
    if w2.lines == w.lines {
      GrowForced(w.target, w.lines, CurrentLine(w, true), CurrentLine(w2, true));
    } else {
      NextForced(w.target, w.lines, CurrentLine(w, true), CurrentLine(w, false), CurrentLine(w2, true));
    }
  }

  lemma {:induction false} PlaceTokensForced(w: Wrap, ts: seq<Token>)
    requires Measured(w) && BreaksForced(w.target, AllLines(w))
    ensures BreaksForced(w.target, AllLines(PlaceTokens(w, ts)))
    decreases |ts|
  {
    hide Measured, BreaksForced, Remember, Closing;
    if ts != [] {
      PlaceTokenMeasured(w, ts[0]);
      PlaceTokenForced(w, ts[0]);
      assert PlaceToken(w, ts[0]).target == w.target;
      PlaceTokensForced(PlaceToken(w, ts[0]), ts[1..]);
    }
  }

  lemma PrefixForced(target: nat, lines: seq<Line>, l: Line)
    requires BreaksForced(target, lines + [l])
    ensures BreaksForced(target, lines)
  {
    var a := lines + [l];
    assert forall i :: 0 <= i < |lines| ==> a[i] == lines[i];
  }

  /** In preserve mode every line fits or holds exactly one visible cluster, and every
      soft break was forced by the cluster after it. */
  lemma PreserveWidths(target: nat, ts: seq<Token>)
    ensures var lines := WrapPreserve(target, ts);
            && (forall l :: l in lines ==>
                              && (Width(LineTokens(l)) <= target || Count(l.body) == 1)
                              && Escapes(l.open) && Escapes(l.close) && NoNewlines(l.body))
            && BreaksForced(target, lines)
  {
    var w := Init(target);
    var done := PlaceTokens(w, ts);
    PlaceTokensAllowed(false, w, ts);
    PlaceTokensForced(w, ts);
    FinishAllowed(false, done);
    PrefixForced(target, done.lines, CurrentLine(done, true));
    forall l | l in WrapPreserve(target, ts)
      ensures Width(LineTokens(l)) <= target || Count(l.body) == 1
    {
      LineWidth(l);
    }
  }
}
