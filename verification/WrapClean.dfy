/**
 Nothing leaks past the end of a line: after any line but the last, drawn from a plain
 terminal, underlining is off and no link is open.
 */
module WrapClean {
  import opened Bytes
  import opened Seqs
  import opened Scanner
  import opened Locality
  import opened Glue
  import opened Swallow
  import opened Sgr
  import opened SgrTracking
  import opened SgrLimits
  import opened WrapModel
  import opened WrapStyle
  import opened WrapWordsStyle
  import opened WrapTheorems

  /** Underlined; if asked, double underline counts too. */
  predicate Marked(p: Pen, double: bool) {
    Underlined in p.on || (double && Double in p.on)
  }

  ghost predicate CleanEnd(l: Line, double: bool) {
    var st := StyleAfter(PLAIN, LineTokens(l));
    !Marked(st.pen, double) && st.link == NoLink
  }

  ghost predicate AllOrdinary(ts: seq<Token>, double: bool) {
    forall t :: t in ts && t.Escape? ==> Ordinary(t.bytes) && (double ==> Closes(t.bytes))
  }

  ghost predicate Tidy(w: Wrap, st: Style, double: bool) {
    && InStyle(w, st)
    && (Marked(st.pen, double) ==> w.active.underline)
    && MemoryNonEmpty(w)
    && forall l :: l in w.lines ==> CleanEnd(l, double)
  }

  lemma UnderlineOffWorks(p: Pen)
    ensures !Marked(ApplyPen(p, UNDERLINE_OFF.bytes), true)
    ensures forall l: Link :: ApplyLink(l, UNDERLINE_OFF.bytes) == l
  {
    var ds := ['2' as int, '4' as int];
    assert ds[..1] == ['2' as int] && ds[..1][..0] == [];
    assert Value(ds[..1]) == 2 && Value(ds) == 24;
    assert UNDERLINE_OFF.bytes == Single(ds);
    SingleApplies(ds, 24, p);
  }

  lemma CloseWorks(l: Link)
    ensures ApplyLink(l, CLOSE_BEL.bytes) == NoLink && ApplyLink(l, CLOSE_ST.bytes) == NoLink
    ensures IsOsc8(CLOSE_BEL.bytes) && IsOsc8(CLOSE_ST.bytes)
  {
    assert CLOSE_BEL.bytes[4..5] == [';' as int];
    assert CLOSE_ST.bytes[4..5] == [';' as int];
  }

  lemma UnderlineClosed(a: Active, st: Style, double: bool)
    requires Marked(st.pen, double) ==> a.underline
    ensures var off := if a.underline then [UNDERLINE_OFF] else [];
            var st2 := StyleAfter(st, off);
            !Marked(st2.pen, double) && st2.link == st.link
  {
    hide ApplyPen, ApplyLink;
    UnderlineOffWorks(st.pen);
    StyleOne(st, UNDERLINE_OFF);
  }

  lemma LinkClosed(a: Active, st: Style)
    requires a.link == [] ==> st.link == NoLink
    ensures var close := if a.link == [] then [] else if a.terminator == BEL then [CLOSE_BEL] else [CLOSE_ST];
            StyleAfter(st, close) == Style(st.pen, NoLink)
  {
    hide ApplyPen, ApplyLink;
    CloseWorks(st.link);
    OscKeepsPen(st.pen, CLOSE_BEL.bytes);
    OscKeepsPen(st.pen, CLOSE_ST.bytes);
    StyleOne(st, CLOSE_BEL);
    StyleOne(st, CLOSE_ST);
  }

  lemma CurrentLineClean(w: Wrap, st: Style, double: bool)
    requires Tidy(w, st, double)
    ensures CleanEnd(CurrentLine(w, false), double)
  {
    hide CleanEnd;
    FlatEmpty(w.open + w.body);
    CleanByStyle(w, st, double);
  }

  lemma CleanByStyle(w: Wrap, st: Style, double: bool)
    requires InStyle(w, st) && (Marked(st.pen, double) ==> w.active.underline)
    requires Flat(w.open + w.body) == [] <==> w.open + w.body == []
    ensures CleanEnd(CurrentLine(w, false), double)
  {
    hide ApplyPen, ApplyLink;
    var line := w.open + w.body;
    var close := CurrentLine(w, false).close;
    StyleAppend(PLAIN, line, close);
    if line != [] {
      var off := if w.active.underline then [UNDERLINE_OFF] else [];
      UnderlineClosed(w.active, st, double);
      LinkClosed(w.active, StyleAfter(st, off));
      var end := if w.active.terminator == BEL then [CLOSE_BEL] else [CLOSE_ST];
      StyleAppend(st, off, if w.active.link == [] then [] else end);
    }
  }

  lemma PushLineTidy(w: Wrap, hard: bool, st: Style, double: bool)
    requires Tidy(w, st, double)
    ensures Tidy(PushLine(w, false, hard), st, double)
  {
    hide InStyle, CleanEnd;
    PushLineStyle(w, hard, st);
    CurrentLineClean(w, st, double);
  }

  lemma AddTidy(w: Wrap, piece: seq<Token>, width: nat, st: Style, double: bool)
    requires Tidy(w, st, double) && NonEmpty(piece) && StyleAfter(st, piece) == st
    ensures Tidy(Add(w, piece, width), st, double)
  {
    hide Replays, CleanEnd;
    AddStyle(w, piece, width, st);
  }

  lemma {:induction false} GlyphsKeepStyle(st: Style, ts: seq<Token>)
    requires forall t :: t in ts ==> t.Glyph?
    ensures StyleAfter(st, ts) == st
  {
    if ts != [] {
      assert ts[0] in ts;
      GlyphsKeepStyle(st, ts[1..]);
    }
  }

  /** Appending a piece and reading its escapes, in either order of the wrapper's. */
  lemma AppendPieceTidy(w: Wrap, piece: seq<Token>, width: nat, st: Style, a: Active, double: bool)
    requires Tidy(w, st, double) && NonEmpty(piece)
    requires Replays(a, StyleAfter(st, piece)) && NonEmpty(a.sgr) && NonEmpty(a.link)
    requires Marked(StyleAfter(st, piece).pen, double) ==> a.underline
    ensures Tidy(AppendPiece(w, piece, width).(active := a), StyleAfter(st, piece), double)
  {
    hide Replays, CleanEnd, StyleAfter, Cells, Drawn, CurrentLine;
    AppendPieceStyle(w, piece, width, st);
    var w1 := if width > 0 && Overflows(w, width) then SoftBreak(w) else w;
    if width > 0 && Overflows(w, width) {
      PushLineTidy(w, false, st, double);
      SoftBreakTidy(w, st, double);
    }
    assert MemoryNonEmpty(w1);
  }

  lemma SoftBreakTidy(w: Wrap, st: Style, double: bool)
    requires Tidy(PushLine(w, false, false), st, double)
    ensures Tidy(SoftBreak(w), st, double)
  {
    hide Replays, CleanEnd, CurrentLine;
  }

  lemma RememberNonEmpty(a: Active, e: Text)
    requires NonEmpty(a.sgr) && NonEmpty(a.link) && e != []
    ensures NonEmpty(Remember(a, e).sgr) && NonEmpty(Remember(a, e).link)
  {
    hide Resets, Underline, IndexOf, OscEnd;
  }

  lemma PlaceTokenTidy(w: Wrap, t: Token, st: Style, double: bool)
    requires Tidy(w, st, double) && t.bytes != [] && (t.Escape? ==> Ordinary(t.bytes) && (double ==> Closes(t.bytes)))
    ensures Tidy(PlaceToken(w, t), StyleAfter(st, [t]), double)
  {
    hide Replays, CleanEnd, Apply, Remember, Ordinary, CurrentLine, InStyle;
    StyleOne(st, t);
    ReplaysOf(w, st);
    match t
    case Escape(e) =>
      OrdinaryFaithful(e);
      ReplayStep(w.active, st, e);
      RememberNonEmpty(w.active, e);
      ApplyPens(w.active, st, e, double);
      AppendPieceTidy(w, [t], 0, st, Remember(w.active, e), double);
    case Newline(_) =>
      PushLineTidy(w, true, st, double);
      NewlineTidy(w, st, double);
    case Glyph(_, width) =>
      AppendPieceTidy(w, [t], width, st, w.active, double);
      ActiveSame(w, [t], width);
  }

  lemma ReplaysOf(w: Wrap, st: Style)
    requires InStyle(w, st)
    ensures Replays(w.active, st)
  {
  }

  lemma ApplyPens(a: Active, st: Style, e: Text, double: bool)
    requires Ordinary(e) && (double ==> Closes(e)) && (Marked(st.pen, double) ==> a.underline)
    ensures Marked(Apply(st, e).pen, double) ==> Remember(a, e).underline
  {
    OrdinaryTracks(a, st.pen, e);
    if double {
      DoubleTracks(a, st.pen, e);
    }
  }

  lemma NewlineTidy(w: Wrap, st: Style, double: bool)
    requires Tidy(PushLine(w, false, true), st, double)
    ensures Tidy(PushLine(w, false, true).(lineWidth := 0), st, double)
  {
    hide Replays, CleanEnd, CurrentLine;
  }

  lemma ActiveSame(w: Wrap, piece: seq<Token>, width: nat)
    ensures AppendPiece(w, piece, width).(active := w.active) == AppendPiece(w, piece, width)
  {
  }

  lemma {:induction false} PlaceTokensTidy(w: Wrap, ts: seq<Token>, st: Style, double: bool)
    requires Tidy(w, st, double) && AllOrdinary(ts, double) && NonEmpty(ts)
    ensures Tidy(PlaceTokens(w, ts), StyleAfter(st, ts), double)
    decreases |ts|
  {
    hide Tidy, PlaceToken, Ordinary, Apply;
    if ts != [] {
      assert ts[0] in ts;
      PlaceTokenTidy(w, ts[0], st, double);
      StyleOne(st, ts[0]);
      PlaceTokensTidy(PlaceToken(w, ts[0]), ts[1..], StyleAfter(st, [ts[0]]), double);
    }
  }

  lemma InitTidy(target: nat, double: bool)
    ensures Tidy(Init(target), PLAIN, double)
  {
  }

  lemma FinishClean(w: Wrap, st: Style, double: bool)
    requires Tidy(w, st, double)
    ensures var lines := Finish(w).lines; forall i :: 0 <= i < |lines| - 1 ==> CleanEnd(lines[i], double)
  {
    hide CleanEnd, InStyle, CurrentLine;
    var lines := Finish(w).lines;
    forall i | 0 <= i < |lines| - 1
      ensures CleanEnd(lines[i], double)
    {
      assert lines[i] in w.lines;
    }
  }

  // ---------------------------------------------------------------- word mode

  lemma FlushSpaceTidy(w: Wrap, st: Style, double: bool)
    requires Tidy(w, st, double)
    ensures Tidy(FlushSpace(w), st, double)
  {
    hide Replays, CleanEnd, StyleAfter, CurrentLine;
    if w.pending && !(w.lineWidth == 0 && w.soft) {
      if Overflows(w, SpaceWidth(w) + w.wordWidth) {
        PushLineTidy(w, false, st, double);
      } else {
        GlyphsKeepStyle(st, Blanks(SpaceWidth(w)));
        AddTidy(w, Blanks(SpaceWidth(w)), SpaceWidth(w), st, double);
      }
    }
  }

  lemma {:induction false} RememberAllTidy(a: Active, ts: seq<Token>, st: Style, double: bool)
    requires AllOrdinary(ts, double) && NonEmpty(ts) && NonEmpty(a.sgr) && NonEmpty(a.link)
    requires Marked(st.pen, double) ==> a.underline
    ensures var a2 := RememberAll(a, ts);
            && NonEmpty(a2.sgr) && NonEmpty(a2.link)
            && (Marked(StyleAfter(st, ts).pen, double) ==> a2.underline)
    decreases |ts|
  {
    hide Apply, Remember, Ordinary;
    if ts != [] {
      assert ts[0] in ts;
      if ts[0].Escape? {
        RememberNonEmpty(a, ts[0].bytes);
        ApplyPens(a, st, ts[0].bytes, double);
        RememberAllTidy(Remember(a, ts[0].bytes), ts[1..], Apply(st, ts[0].bytes), double);
      } else {
        RememberAllTidy(a, ts[1..], st, double);
      }
    }
  }

  lemma OrdinaryAllFaithful(ts: seq<Token>, double: bool)
    requires AllOrdinary(ts, double)
    ensures AllFaithful(ts)
  {
    hide Ordinary, Faithful;
    forall t | t in ts && t.Escape?
      ensures Faithful(t.bytes)
    {
      OrdinaryFaithful(t.bytes);
    }
  }

  lemma PlaceWordTidy(u: Tables, w: Wrap, st: Style, double: bool)
    requires Tidy(w, st, double) && AllOrdinary(w.word, double) && GoodWord(u, w.word)
    ensures Tidy(PlaceWord(w), StyleAfter(st, w.word), double)
  {
    hide Replays, CleanEnd, StyleAfter, RememberAll, RememberText, Ordinary, Exact, AppendPiece, InStyle;
    ExactNonEmpty(u, true, w.word);
    if w.wordWidth <= w.target {
      ReplaysOf(w, st);
      RememberTextIsTokens(u, w.active, w.word);
      ReplayAll(w.active, st, w.word);
      RememberAllTidy(w.active, w.word, st, double);
      AppendPieceTidy(w, w.word, w.wordWidth, st, RememberText(w.active, Flat(w.word)), double);
      SameMemory(w);
    } else {
      PlaceTokensTidy(w, w.word, st, double);
    }
  }

  lemma SameMemory(w: Wrap)
    ensures AppendPiece(w, w.word, w.wordWidth).active == w.active
  {
  }

  /** Tidy does not look at the word or the pending whitespace. */
  lemma TidyElsewhere(w: Wrap, w2: Wrap, st: Style, double: bool)
    requires Tidy(w, st, double)
    requires w2.lines == w.lines && w2.open == w.open && w2.body == w.body && w2.active == w.active
    ensures Tidy(w2, st, double)
  {
    hide Replays, CleanEnd, StyleAfter;
  }

  lemma FlushWordTidy(u: Tables, w: Wrap, st: Style, double: bool)
    requires Tidy(w, st, double) && AllOrdinary(w.word, double) && GoodWord(u, w.word)
    ensures Tidy(FlushWord(w), StyleAfter(st, w.word), double)
  {
    hide Tidy, Ordinary, GoodWord, FlushSpace, PlaceWord;
    if w.word != [] {
      FlushSpaceTidy(w, st, double);
      var w1 := FlushSpace(w);
      KeepsWord(w);
      PlaceWordTidy(u, w1, st, double);
      TidyElsewhere(PlaceWord(w1), FlushWord(w), StyleAfter(st, w.word), double);
    }
  }

  lemma KeepsWord(w: Wrap)
    ensures FlushSpace(w).word == w.word
  {
  }

  lemma StepWordTidy(u: Tables, w: Wrap, st: Style, t: Token, rest: seq<Token>, double: bool)
    requires Tidy(w, st, double) && GoodWord(u, w.word) && Drawable(u, w.word + ([t] + rest))
    requires AllOrdinary(w.word + [t], double)
    ensures var w2 := StepWord(w, t);
            && GoodWord(u, w2.word) && Drawable(u, w2.word + rest) && AllOrdinary(w2.word, double)
            && Tidy(w2, if w2.word == [] then StyleAfter(st, w.word + [t]) else st, double)
    ensures StepWord(w, t).word == [] || StepWord(w, t).word == w.word + [t]
  {
    hide Exact, Tidy, FlushWord, Faithful, Ordinary, StyleAfter, Apply;
    Assoc(w.word, [t], rest);
    assert AllOrdinary(w.word, double);
    if t.Newline? || IsWhitespace(t) {
      FlushWordTidy(u, w, st, double);
      FlushWordEmpties(w);
      ExactSuffix(u, true, w.word, [t] + rest);
      ExactSuffix(u, true, [t], rest);
      EmptyFront([], rest);
      NothingGood(u);
      var f := FlushWord(w);
      var st2 := StyleAfter(st, w.word);
      StyleAppend(st, w.word, [t]);
      StyleOne(st2, t);
      if t.Newline? {
        PushLineTidy(f, true, st2, double);
        TidyElsewhere(PushLine(f, false, true), StepWord(w, t), st2, double);
      } else {
        TidyElsewhere(f, StepWord(w, t), st2, double);
      }
    } else {
      ExactPrefix(u, true, w.word + [t], rest);
      TidyElsewhere(w, StepWord(w, t), st, double);
    }
  }

  lemma {:induction false} StepWordsTidy(u: Tables, w: Wrap, st: Style, ts: seq<Token>, double: bool)
    returns (st2: Style)
    requires Tidy(w, st, double) && GoodWord(u, w.word) && Drawable(u, w.word + ts) && AllOrdinary(w.word + ts, double)
    ensures var w2 := StepWords(w, ts);
            Tidy(w2, st2, double) && GoodWord(u, w2.word) && AllOrdinary(w2.word, double)
    decreases |ts|
  {
    hide Tidy, StepWord, Drawable, GoodWord, Ordinary;
    if ts == [] {
      st2 := st;
      EmptyBack(w.word, ts);
    } else {
      var t, rest := ts[0], ts[1..];
      assert ts == [t] + rest;
      assert AllOrdinary(w.word + [t], double) && AllOrdinary(rest, double);
      StepWordTidy(u, w, st, t, rest, double);
      var w2 := StepWord(w, t);
      assert AllOrdinary(w2.word + rest, double);
      st2 := StepWordsTidy(u, w2, if w2.word == [] then StyleAfter(st, w.word + [t]) else st, rest, double);
    }
  }

  // ---------------------------------------------------------------- both modes

  ghost predicate AllClean(lines: seq<Line>, double: bool) {
    forall i :: 0 <= i < |lines| - 1 ==> CleanEnd(lines[i], double)
  }

  /** No single underline and no link is left on at the end of any line but the last; and no
      double underline either, if every sequence closes what it opens. */
  lemma LinesEndClean(u: Tables, text: Text, target: nat, preserve: bool, double: bool)
    requires AllOrdinary(Tokens(u, true, text), double) && (preserve || NoOpenEscape(Tokens(u, true, text)))
    ensures AllClean(WrapText(u, text, target, preserve), double)
  {
    hide CleanEnd, Tidy, NoOpenEscape, WrapPreserve, WrapWords;
    var ts := Tokens(u, true, text);
    TokensCover(u, true, text);
    ExactNonEmpty(u, true, ts);
    InitTidy(target, double);
    if preserve {
      PlaceTokensTidy(Init(target), ts, PLAIN, double);
      FinishClean(PlaceTokens(Init(target), ts), StyleAfter(PLAIN, ts), double);
      assert WrapText(u, text, target, preserve) == Finish(PlaceTokens(Init(target), ts)).lines by {
        PreserveIs(u, text, target);
      }
    } else {
      EmptyFront([], ts);
      NothingGood(u);
      OrdinaryAllFaithful(ts, double);
      var st := StepWordsTidy(u, Init(target), PLAIN, ts, double);
      var w := StepWords(Init(target), ts);
      FlushWordTidy(u, w, st, double);
      FinishClean(FlushWord(w), StyleAfter(st, w.word), double);
      assert WrapText(u, text, target, preserve) == Finish(FlushWord(w)).lines by {
        WordsAre(u, text, target);
      }
    }
  }

  lemma PreserveIs(u: Tables, text: Text, target: nat)
    ensures WrapText(u, text, target, true) == Finish(PlaceTokens(Init(target), Tokens(u, true, text))).lines
  {
  }

  lemma WordsAre(u: Tables, text: Text, target: nat)
    ensures WrapText(u, text, target, false) == Finish(FlushWord(StepWords(Init(target), Tokens(u, true, text)))).lines
  {
  }
}
