/**
 Word mode: what holds between two source tokens, so that every output line scans to
 its own tokens even where whitespace was dropped or replaced.
 */
module WrapWordsExact {
  import opened Bytes
  import opened Seqs
  import opened Scanner
  import opened Locality
  import opened Glue
  import opened Sgr
  import opened WrapModel
  import opened WrapExact
  import opened WrapWidth

  /** The wrapper between two tokens of the source, `rest` being what is left of it. */
  ghost predicate Ready(u: Tables, w: Wrap, rest: seq<Token>) {
    && Measured(w) && LinesExact(u, w.lines) && MemoryShut(u, w.active) && ShutEscapes(u, w.open)
    && Exact(u, true, w.open + w.body)
    && (w.word + rest != [] || w.pending ==> ShutEnd(u, w.open + w.body))
    && Exact(u, true, w.word + rest)
    && (w.pending ==> Exact(u, true, [BLANK] + (w.word + rest)) && w.pendingWidth > 0)
    && (!w.pending ==> w.body == [])
  }

  lemma WordAfterBlank(u: Tables, w: Wrap, rest: seq<Token>)
    requires Ready(u, w, rest) && w.pending
    ensures Exact(u, true, [BLANK] + w.word) && Exact(u, true, w.word)
  {
    ExactPrefix(u, true, w.word, rest);
    Assoc([BLANK], w.word, rest);
    ExactPrefix(u, true, [BLANK] + w.word, rest);
  }

  lemma SuppressedJoined(u: Tables, w: Wrap)
    requires TableFacts(u) && Measured(w) && w.lineWidth == 0
    requires Exact(u, true, w.open + w.body) && ShutEnd(u, w.open + w.body)
    requires Exact(u, true, [BLANK] + w.word)
    ensures Exact(u, true, w.open + w.body + w.word)
  {
    ZeroWidthTokens(w.body);
    GlueZero(u, w.open + w.body, w.word);
  }

  lemma SpacedJoined(u: Tables, w: Wrap, k: nat)
    requires Measured(w) && k > 0
    requires Exact(u, true, w.open + w.body) && ShutEnd(u, w.open + w.body)
    requires Exact(u, true, [BLANK] + w.word)
    ensures Exact(u, true, w.open + (w.body + Blanks(k)) + w.word)
    ensures Width(w.body + Blanks(k)) == w.lineWidth + k && NoNewlines(w.body + Blanks(k))
  {
    hide Exact, ShutEnd;
    BlanksWidth(k);
    WidthAppend(w.body, Blanks(k));
    GlueBlanks(u, w.open + w.body, k, w.word);
    Assoc(w.open, w.body, Blanks(k));
  }

  lemma FlushSpaceJoined(u: Tables, w: Wrap, rest: seq<Token>)
    requires TableFacts(u) && Ready(u, w, rest) && w.word != []
    ensures Joined(u, FlushSpace(w), w.word) && Measured(FlushSpace(w))
  {
    hide Exact, ShutEnd, ShutEscapes, LinesExact, TableFacts, Overflows, CurrentLine, Opening;
    ExactPrefix(u, true, w.word, rest);
    if !w.pending {
      EmptyBack(w.open, w.body);
      AfterEscapes(u, w.open, w.word);
    } else {
      WordAfterBlank(u, w, rest);
      if w.lineWidth == 0 && w.soft {
        SuppressedJoined(u, w);
      } else if Overflows(w, SpaceWidth(w) + w.wordWidth) {
        PushLineJoined(u, w, false, w.word);
        SoftBreakMeasured(w);
      } else {
        SpacedJoined(u, w, SpaceWidth(w));
      }
    }
  }

  lemma PlaceWordJoined(u: Tables, w: Wrap)
    requires Joined(u, w, w.word) && w.word != []
    ensures Joined(u, PlaceWord(w), [])
  {
    hide Exact, LinesExact, MemoryShut, AppendPiece;
    EmptyBack(w.word, []);
    if w.wordWidth <= w.target {
      AppendPieceJoined(u, w, w.word, w.wordWidth, []);
      RememberTextShut(u, w.active, Flat(w.word));
      assert AppendPiece(w, w.word, w.wordWidth).active == w.active by { ActiveKept(w, w.word, w.wordWidth); }
    } else {
      PlaceTokensJoined(u, w, w.word, []);
    }
  }

  lemma ActiveKept(w: Wrap, piece: seq<Token>, width: nat)
    ensures AppendPiece(w, piece, width).active == w.active
  {
  }

  // ---------------------------------------------------------------- the line ends with the word

  lemma {:induction false} PlaceTokensLast(w: Wrap, ts: seq<Token>)
    requires ts != [] && NoNewlines(ts)
    ensures var w2 := PlaceTokens(w, ts);
            w2.body != [] && w2.body[|w2.body| - 1] == ts[|ts| - 1]
    decreases |ts|
  {
    hide Closing, Remember, Overflows;
    assert ts[0] in ts;
    var w1 := PlaceToken(w, ts[0]);
    assert w1.body != [] && w1.body[|w1.body| - 1] == ts[0];
    if |ts| > 1 {
      PlaceTokensLast(w1, ts[1..]);
    } else {
      assert ts[1..] == [];
    }
  }

  lemma PieceLast(w: Wrap, piece: seq<Token>, width: nat)
    requires piece != []
    ensures var w2 := AppendPiece(w, piece, width);
            w2.body != [] && w2.body[|w2.body| - 1] == piece[|piece| - 1]
  {
    hide CurrentLine, Opening, Overflows;
  }

  lemma PlaceWordLast(w: Wrap)
    requires w.word != [] && NoNewlines(w.word)
    ensures var w2 := PlaceWord(w);
            w2.body != [] && w2.body[|w2.body| - 1] == w.word[|w.word| - 1]
  {
    hide PlaceTokens, AppendPiece, RememberText;
    if w.wordWidth > w.target {
      PlaceTokensLast(w, w.word);
    } else {
      PieceLast(w, w.word, w.wordWidth);
    }
  }

  // ---------------------------------------------------------------- flushing

  /** After a flush the line is exact, and over if anything of the source is left. */
  ghost predicate Flushed(u: Tables, w: Wrap, rest: seq<Token>) {
    && Measured(w) && LinesExact(u, w.lines) && MemoryShut(u, w.active) && ShutEscapes(u, w.open)
    && Exact(u, true, w.open + w.body) && Exact(u, true, rest)
    && (rest != [] ==> ShutEnd(u, w.open + w.body))
    && w.word == []
  }

  lemma FlushWordReady(u: Tables, w: Wrap, rest: seq<Token>)
    requires TableFacts(u) && Ready(u, w, rest)
    ensures Flushed(u, FlushWord(w), rest)
  {
    hide Exact, Shut, LinesExact, MemoryShut, TableFacts, FlushSpace, PlaceWord;
    ExactSuffix(u, true, w.word, rest);
    if w.word == [] {
      EmptyFront(w.word, rest);
    } else {
      var w1 := FlushSpace(w);
      FlushSpaceJoined(u, w, rest);
      FlushSpaceKeepsWord(w);
      PlaceWordJoined(u, w1);
      var w2 := PlaceWord(w1);
      EmptyBack(w2.open + w2.body, []);
      PlaceWordLast(w1);
      if rest != [] {
        ShutInside(u, w.word, rest);
      }
      PlaceWordMeasured(w1);
    }
  }

  lemma FlushSpaceKeepsWord(w: Wrap)
    ensures FlushSpace(w).word == w.word && FlushSpace(w).wordWidth == w.wordWidth
    ensures FlushSpace(w).target == w.target
  {
  }

  // ---------------------------------------------------------------- one source token

  lemma NewlineReady(u: Tables, f: Wrap, t: Token, rest: seq<Token>)
    requires Flushed(u, f, [t] + rest)
    ensures var w := PushLine(f, false, true).(lineWidth := 0, pending := false, pendingWidth := 0, soft := false);
            Ready(u, w, rest)
  {
    hide Exact, Shut, LinesExact;
    ExactSuffix(u, true, [t], rest);
    EmptyFront([], rest);
    NothingExact(u);
    PushLineJoined(u, f, true, []);
    EmptyBack(Opening(f.active), []);
    EmptyBack(Opening(f.active) + [], []);
    EscapesShutEnd(u, Opening(f.active));
  }

  lemma NothingExact(u: Tables)
    ensures Exact(u, true, [])
  {
  }

  lemma EscapesShutEnd(u: Tables, ts: seq<Token>)
    requires ShutEscapes(u, ts)
    ensures ShutEnd(u, ts)
  {
  }

  lemma WhitespaceReady(u: Tables, f: Wrap, t: Token, rest: seq<Token>, k: nat)
    requires Flushed(u, f, [t] + rest) && IsWhitespace(t) && k > 0
    ensures Ready(u, f.(pending := true, pendingWidth := k), rest)
  {
    hide Shut, LinesExact, MemoryShut;
    ExactSuffix(u, true, [t], rest);
    EmptyFront(f.word, rest);
    BlankForWhitespace(u, t, rest);
  }

  lemma StepWordReady(u: Tables, w: Wrap, t: Token, rest: seq<Token>)
    requires TableFacts(u) && Ready(u, w, [t] + rest)
    ensures Ready(u, StepWord(w, t), rest)
  {
    hide Exact, Shut, LinesExact, TableFacts, FlushWord, Flushed, MemoryShut;
    Assoc(w.word, [t], rest);
    OneToken(t);
    var f := FlushWord(w);
    if t.Newline? {
      FlushWordReady(u, w, [t] + rest);
      NewlineReady(u, f, t, rest);
    } else if IsWhitespace(t) {
      FlushWordReady(u, w, [t] + rest);
      WhitespaceReady(u, f, t, rest, StepWord(w, t).pendingWidth);
    } else {
      WidthAppend(w.word, [t]);
      Assoc([BLANK], w.word + [t], rest);
    }
  }

  lemma {:induction false} StepWordsReady(u: Tables, w: Wrap, ts: seq<Token>)
    requires TableFacts(u) && Ready(u, w, ts)
    ensures Ready(u, StepWords(w, ts), [])
    decreases |ts|
  {
    hide Ready, StepWord, TableFacts;
    if ts != [] {
      assert ts == [ts[0]] + ts[1..];
      StepWordReady(u, w, ts[0], ts[1..]);
      StepWordsReady(u, StepWord(w, ts[0]), ts[1..]);
    }
  }

  lemma InitReady(u: Tables, target: nat, ts: seq<Token>)
    requires Exact(u, true, ts)
    ensures Ready(u, Init(target), ts)
  {
    EmptyFront(Init(target).word, ts);
  }

  /** In word mode, too, every output line scans to its own tokens. */
  lemma WordsExact(u: Tables, target: nat, text: Text)
    requires TableFacts(u)
    ensures LinesExact(u, WrapWords(target, Tokens(u, true, text)))
  {
    hide TableFacts, Exact, Ready, LinesExact, StepWords, FlushWord, Tokens, Finish;
    var ts := Tokens(u, true, text);
    TokensCover(u, true, text);
    InitReady(u, target, ts);
    StepWordsReady(u, Init(target), ts);
    var w := StepWords(Init(target), ts);
    FlushWordReady(u, w, []);
    FinishExact(u, FlushWord(w));
  }
}
