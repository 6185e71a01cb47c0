/**
 Word mode: how wide an output line may be, and what a continuation may start with.
 */
module WrapWordsWidth {
  import opened Seqs
  import opened Scanner
  import opened Locality
  import opened Glue
  import opened Sgr
  import opened WrapModel
  import opened WrapWidth

  /** The first visible token, if there is one, is not whitespace. */
  predicate NoLead(ts: seq<Token>) {
    ts != [] ==> if TokenWidth(ts[0]) > 0 then !IsWhitespace(ts[0]) else NoLead(ts[1..])
  }

  ghost predicate NoWhitespace(ts: seq<Token>) {
    forall t :: t in ts ==> !IsWhitespace(t)
  }

  lemma {:induction false} NoLeadAppend(a: seq<Token>, b: seq<Token>)
    requires NoLead(a) && (Width(a) > 0 || NoLead(b))
    ensures NoLead(a + b)
  {
    if a == [] {
      EmptyFront(a, b);
    } else {
      ConsAppend(a, b);
      if TokenWidth(a[0]) == 0 {
        NoLeadAppend(a[1..], b);
      }
    }
  }

  lemma {:induction false} NoWhitespaceLead(ts: seq<Token>)
    requires NoWhitespace(ts)
    ensures NoLead(ts)
  {
    if ts != [] {
      assert ts[0] in ts;
      NoWhitespaceLead(ts[1..]);
    }
  }

  /** Soft-wrapped lines do not start with whitespace, and one that is still without
      width is known to be soft-wrapped. */
  ghost predicate Led(w: Wrap) {
    && (forall l :: l in w.lines && !l.hard ==> NoLead(l.body))
    && (!w.hard ==> NoLead(w.body))
    && (!w.hard && w.lineWidth == 0 ==> w.soft)
  }

  ghost predicate Fine(w: Wrap) {
    Measured(w) && WidthsAllowed(true, w) && Led(w)
  }

  lemma SoftBreakFine(w: Wrap)
    requires Fine(w)
    ensures Fine(SoftBreak(w))
  {
    SoftBreakMeasured(w);
    var w2 := SoftBreak(w);
    assert forall l :: l in w2.lines ==> l in w.lines || l == CurrentLine(w, false);
  }

  lemma AppendPieceLed(w: Wrap, piece: seq<Token>, width: nat)
    requires Fine(w) && width == Width(piece) && NoWhitespace(piece)
    ensures Led(AppendPiece(w, piece, width))
  {
    hide Measured, WidthsAllowed;
    NoWhitespaceLead(piece);
    if width > 0 && Overflows(w, width) {
      SoftBreakFine(w);
      NoLeadAppend([], piece);
    } else if !w.hard {
      NoLeadAppend(w.body, piece);
    }
  }

  lemma AppendPieceFine(w: Wrap, piece: seq<Token>, width: nat)
    requires Fine(w) && width == Width(piece) && NoWhitespace(piece) && NoNewlines(piece)
    requires width <= w.target || Count(piece) == 1
    ensures Fine(AppendPiece(w, piece, width)) && AppendPiece(w, piece, width).target == w.target
  {
    hide Measured, WidthsAllowed;
    AppendPieceMeasured(w, piece, width);
    AppendPieceAllowed(true, w, piece, width);
    AppendPieceLed(w, piece, width);
  }

  lemma MemoryFine(w: Wrap, a: Active)
    requires Fine(w) && Escapes(a.sgr) && Escapes(a.link)
    ensures Fine(w.(active := a))
  {
  }

  lemma PlaceTokenFine(w: Wrap, t: Token)
    requires Fine(w) && !IsWhitespace(t) && !t.Newline?
    ensures Fine(PlaceToken(w, t)) && PlaceToken(w, t).target == w.target
  {
    hide Measured, WidthsAllowed, Led, Remember;
    OneToken(t);
    PlaceTokenMeasured(w, t);
    PlaceTokenAllowed(true, w, t);
    match t
    case Escape(e) =>
      AppendPieceLed(w, [t], 0);
      LedIgnoresMemory(Add(w, [t], 0), Remember(w.active, e));
    case Glyph(_, width) => AppendPieceLed(w, [t], width);
  }

  lemma LedIgnoresMemory(w: Wrap, a: Active)
    requires Led(w)
    ensures Led(w.(active := a))
  {
  }

  lemma {:induction false} PlaceTokensFine(w: Wrap, ts: seq<Token>)
    requires Fine(w) && NoWhitespace(ts) && NoNewlines(ts)
    ensures Fine(PlaceTokens(w, ts)) && PlaceTokens(w, ts).target == w.target
    decreases |ts|
  {
    hide Fine, PlaceToken;
    if ts != [] {
      assert ts[0] in ts;
      PlaceTokenFine(w, ts[0]);
      PlaceTokensFine(PlaceToken(w, ts[0]), ts[1..]);
    }
  }

  lemma PlaceWordFine(w: Wrap)
    requires Fine(w) && NoWhitespace(w.word)
    ensures Fine(PlaceWord(w)) && PlaceWord(w).target == w.target
  {
    hide WidthsAllowed, Led, RememberText;
    if w.wordWidth <= w.target {
      AppendPieceFine(w, w.word, w.wordWidth);
      var w1 := AppendPiece(w, w.word, w.wordWidth);
      RememberTextEscapes(w1.active, Flat(w.word));
      MemoryFine(w1, RememberText(w1.active, Flat(w.word)));
    } else {
      PlaceTokensFine(w, w.word);
    }
  }

  /** Spaces are put at the start of a line only if it starts a source line. */
  lemma SpacedFine(w: Wrap, k: nat)
    requires Fine(w) && k > 0
    requires w.lineWidth == 0 ==> w.hard
    requires w.lineWidth > 0 ==> w.lineWidth + k <= w.target
    ensures Fine(w.(body := w.body + Blanks(k), lineWidth := w.lineWidth + k))
  {
    BlanksWidth(k);
    WidthAppend(w.body, Blanks(k));
    if w.lineWidth == 0 {
      forall t | t in w.body
        ensures TokenWidth(t) == 0
      {
        PositiveInZero(w.body, t);
      }
      assert OnlyBlanks(w.body + Blanks(k));
    } else if !w.hard {
      NoLeadAppend(w.body, Blanks(k));
    }
  }

  lemma FlushSpaceFine(w: Wrap)
    requires Fine(w)
    ensures Fine(FlushSpace(w)) && FlushSpace(w).word == w.word && FlushSpace(w).target == w.target
  {
    if w.pending && !(w.lineWidth == 0 && w.soft) {
      if Overflows(w, SpaceWidth(w) + w.wordWidth) {
        SoftBreakFine(w);
      } else {
        SpacedFine(w, SpaceWidth(w));
      }
    }
  }

  lemma FlushWordFine(w: Wrap)
    requires Fine(w) && NoWhitespace(w.word)
    ensures Fine(FlushWord(w)) && FlushWord(w).target == w.target && FlushWord(w).word == []
  {
    hide WidthsAllowed, Led, FlushSpace, PlaceWord;
    if w.word != [] {
      FlushSpaceFine(w);
      PlaceWordFine(FlushSpace(w));
      PlaceWordMeasured(FlushSpace(w));
      WordlessFine(PlaceWord(FlushSpace(w)));
    }
  }

  lemma WordlessFine(w: Wrap)
    requires Fine(w)
    ensures Fine(w.(word := [], wordWidth := 0))
  {
  }

  lemma NewlineFine(f: Wrap)
    requires Fine(f)
    ensures Fine(PushLine(f, false, true).(lineWidth := 0, pending := false, pendingWidth := 0, soft := false))
  {
    var w2 := PushLine(f, false, true);
    assert forall l :: l in w2.lines ==> l in f.lines || l == CurrentLine(f, false);
  }

  lemma StepWordFine(w: Wrap, t: Token)
    requires Fine(w) && NoWhitespace(w.word)
    ensures Fine(StepWord(w, t)) && NoWhitespace(StepWord(w, t).word) && StepWord(w, t).target == w.target
  {
    hide FlushWord;
    if t.Newline? || IsWhitespace(t) {
      FlushWordFine(w);
      if t.Newline? {
        NewlineFine(FlushWord(w));
      }
    } else {
      OneToken(t);
      WidthAppend(w.word, [t]);
    }
  }

  lemma {:induction false} StepWordsFine(w: Wrap, ts: seq<Token>)
    requires Fine(w) && NoWhitespace(w.word)
    ensures var w2 := StepWords(w, ts);
            Fine(w2) && NoWhitespace(w2.word) && w2.target == w.target
    decreases |ts|
  {
    hide Fine, StepWord;
    if ts != [] {
      StepWordFine(w, ts[0]);
      StepWordsFine(StepWord(w, ts[0]), ts[1..]);
    }
  }

  /** Word mode: a line is wider than the target only as the leading whitespace of a
      source line or as a single cluster; no continuation starts with whitespace. */
  lemma WordsWidths(target: nat, ts: seq<Token>)
    ensures forall l :: l in WrapWords(target, ts) ==>
                          || Width(LineTokens(l)) <= target
                          || Count(l.body) == 1
                          || (l.hard && OnlyBlanks(l.body))
    ensures forall l :: l in WrapWords(target, ts) ==>
                          && (!l.hard ==> NoLead(l.body))
                          && Escapes(l.open) && Escapes(l.close) && NoNewlines(l.body)
  {
    var w := StepWords(Init(target), ts);
    StepWordsFine(Init(target), ts);
    FlushWordFine(w);
    var f := FlushWord(w);
    FinishAllowed(true, f);
    forall l | l in WrapWords(target, ts)
      ensures Width(LineTokens(l)) == Width(l.body)
      ensures !l.hard ==> NoLead(l.body)
    {
      LineWidth(l);
      assert l in f.lines || l == CurrentLine(f, true);
    }
  }
}
