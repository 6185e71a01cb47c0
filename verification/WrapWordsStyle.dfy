/**
 Word mode and styles. Whitespace may be dropped at line ends; everything else is drawn
 as in the text, and the whitespace that stays keeps its style.
 */
module WrapWordsStyle {
  import opened Bytes
  import opened Seqs
  import opened Scanner
  import opened Locality
  import opened Glue
  import opened Swallow
  import opened Sgr
  import opened WrapModel
  import opened WrapWidth
  import opened WrapWordsWidth
  import opened WrapStyle

  // ---------------------------------------------------------------- cells and whitespace

  predicate IsBlankCell(c: Cell) {
    c.bytes != [] && (c.bytes[0] == SPACE || c.bytes[0] == TAB)
  }

  function BlankCells(k: nat, st: Style): (cs: seq<Cell>)
    ensures |cs| == k
  {
    if k == 0 then [] else [Cell([SPACE], 1, st)] + BlankCells(k - 1, st)
  }

  /** Whitespace clusters laid out as single spaces of the same style. */
  function Spread(cs: seq<Cell>): seq<Cell> {
    if cs == [] then []
    else
      (if IsBlankCell(cs[0]) then BlankCells(if cs[0].width > 0 then cs[0].width else 1, cs[0].style) else [cs[0]])
      + Spread(cs[1..])
  }

  function Visible(cs: seq<Cell>): seq<Cell> {
    if cs == [] then [] else (if IsBlankCell(cs[0]) then [] else [cs[0]]) + Visible(cs[1..])
  }

  /** `out` is `full` without some of its whitespace. */
  ghost predicate Drops(full: seq<Cell>, out: seq<Cell>) {
    if full == [] then out == []
    else
      || (out != [] && out[0] == full[0] && Drops(full[1..], out[1..]))
      || (IsBlankCell(full[0]) && Drops(full[1..], out))
  }

  lemma {:induction false} DropsSame(a: seq<Cell>)
    ensures Drops(a, a)
  {
    if a != [] {
      DropsSame(a[1..]);
    }
  }

  lemma {:induction false} DropsAppend(a: seq<Cell>, b: seq<Cell>, c: seq<Cell>, d: seq<Cell>)
    requires Drops(a, b) && Drops(c, d)
    ensures Drops(a + c, b + d)
    decreases |a|
  {
    if a == [] {
      EmptyFront(a, c);
      EmptyFront(b, d);
    } else {
      ConsAppend(a, c);
      if b != [] && b[0] == a[0] && Drops(a[1..], b[1..]) {
        ConsAppend(b, d);
        DropsAppend(a[1..], b[1..], c, d);
      } else {
        DropsAppend(a[1..], b, c, d);
      }
    }
  }

  lemma {:induction false} DropsBlanks(a: seq<Cell>, b: seq<Cell>, k: nat, st: Style)
    requires Drops(a, b + BlankCells(k, st))
    ensures Drops(a, b)
    decreases |a|
  {
    var full := b + BlankCells(k, st);
    if k == 0 {
      EmptyBack(b, BlankCells(k, st));
    } else if b == [] {
      EmptyFront(b, BlankCells(k, st));
      assert full == [Cell([SPACE], 1, st)] + BlankCells(k - 1, st);
      assert a != [];
      if full[0] == a[0] && Drops(a[1..], full[1..]) {
        assert full[1..] == [] + BlankCells(k - 1, st);
        DropsBlanks(a[1..], [], k - 1, st);
      } else {
        DropsBlanks(a[1..], b, k, st);
      }
    } else {
      ConsAppend(b, BlankCells(k, st));
      assert a != [];
      if full[0] == a[0] && Drops(a[1..], full[1..]) {
        DropsBlanks(a[1..], b[1..], k, st);
      } else {
        DropsBlanks(a[1..], b, k, st);
      }
    }
  }

  lemma {:induction false} DropsVisible(full: seq<Cell>, out: seq<Cell>)
    requires Drops(full, out)
    ensures Visible(full) == Visible(out)
    decreases |full|
  {
    if full != [] {
      if out != [] && out[0] == full[0] && Drops(full[1..], out[1..]) {
        DropsVisible(full[1..], out[1..]);
      } else {
        DropsVisible(full[1..], out);
      }
    }
  }

  lemma {:induction false} SpreadAppend(a: seq<Cell>, b: seq<Cell>)
    ensures Spread(a + b) == Spread(a) + Spread(b)
  {
    if a == [] {
      EmptyFront(a, b);
    } else {
      ConsAppend(a, b);
      SpreadAppend(a[1..], b);
      var one := if IsBlankCell(a[0]) then BlankCells(if a[0].width > 0 then a[0].width else 1, a[0].style) else [a[0]];
      Assoc(one, Spread(a[1..]), Spread(b));
    }
  }

  lemma {:induction false} VisibleAppend(a: seq<Cell>, b: seq<Cell>)
    ensures Visible(a + b) == Visible(a) + Visible(b)
  {
    if a == [] {
      EmptyFront(a, b);
    } else {
      ConsAppend(a, b);
      VisibleAppend(a[1..], b);
      Assoc(if IsBlankCell(a[0]) then [] else [a[0]], Visible(a[1..]), Visible(b));
    }
  }

  lemma {:induction false} BlanksInvisible(k: nat, st: Style)
    ensures Visible(BlankCells(k, st)) == []
  {
    if k > 0 {
      BlanksInvisible(k - 1, st);
      assert BlankCells(k, st)[1..] == BlankCells(k - 1, st);
    }
  }

  lemma {:induction false} SpreadVisible(cs: seq<Cell>)
    ensures Visible(Spread(cs)) == Visible(cs)
  {
    if cs != [] {
      SpreadVisible(cs[1..]);
      var k := if cs[0].width > 0 then cs[0].width else 1;
      if IsBlankCell(cs[0]) {
        VisibleAppend(BlankCells(k, cs[0].style), Spread(cs[1..]));
        BlanksInvisible(k, cs[0].style);
      } else {
        VisibleAppend([cs[0]], Spread(cs[1..]));
        assert [cs[0]][1..] == [];
      }
    }
  }

  lemma {:induction false} BlankCellsOf(k: nat, st: Style)
    ensures Cells(st, Blanks(k)) == BlankCells(k, st) && StyleAfter(st, Blanks(k)) == st
  {
    if k > 0 {
      BlankCellsOf(k - 1, st);
      assert Blanks(k)[1..] == Blanks(k - 1);
    }
  }

  lemma {:induction false} BlankCellsAdd(j: nat, k: nat, st: Style)
    ensures BlankCells(j + k, st) == BlankCells(j, st) + BlankCells(k, st)
  {
    if j == 0 {
      EmptyFront(BlankCells(j, st), BlankCells(k, st));
    } else {
      BlankCellsAdd(j - 1, k, st);
      Assoc([Cell([SPACE], 1, st)], BlankCells(j - 1, st), BlankCells(k, st));
    }
  }

  lemma {:induction false} SpreadWord(st: Style, ts: seq<Token>)
    requires NoWhitespace(ts) && NonEmpty(ts)
    ensures Spread(Cells(st, ts)) == Cells(st, ts)
    decreases |ts|
  {
    if ts != [] {
      assert ts[0] in ts;
      var t := ts[0];
      if t.Glyph? {
        assert !IsBlankCell(Cell(t.bytes, t.width, st));
        SpreadWord(st, ts[1..]);
      } else {
        SpreadWord(if t.Escape? then Apply(st, t.bytes) else st, ts[1..]);
      }
    }
  }

  lemma VisibleLast(cs: seq<Cell>)
    requires cs != [] && !IsBlankCell(cs[|cs| - 1])
    ensures Visible(cs) != [] && Visible(cs)[|Visible(cs)| - 1] == cs[|cs| - 1]
  {
    Snoc(cs);
    VisibleAppend(cs[..|cs| - 1], [cs[|cs| - 1]]);
  }

  // ---------------------------------------------------------------- the byte-wise memory

  /** Bytes that a reader of escapes passes over: a lone ESC and what follows it are two. */
  lemma {:induction false} SkipHarmless(a: Active, b: Text, rest: Text)
    requires Harmless(b)
    ensures RememberText(a, b + rest) == RememberText(a, rest)
    decreases |b|
  {
    hide Remember;
    if b == [] {
      EmptyFront(b, rest);
    } else {
      ConsAppend(b, rest);
      if b[0] == ESC {
        TwoBytesIgnored(a, b, rest);
        HarmlessDrop(b, 2);
        SkipHarmless(a, b[2..], rest);
      } else {
        HarmlessDrop(b, 1);
        SkipHarmless(a, b[1..], rest);
      }
    }
  }

  lemma HarmlessDrop(b: Text, n: nat)
    requires Harmless(b) && n <= |b|
    ensures Harmless(b[n..])
  {
    var t := b[n..];
    forall k | 0 <= k < |t| && t[k] == ESC
      ensures k + 1 < |t| && t[k + 1] >= 0x80
    {
      assert b[n + k] == ESC;
    }
  }

  lemma TwoBytesIgnored(a: Active, b: Text, rest: Text)
    requires Harmless(b) && b != [] && b[0] == ESC
    ensures |b| >= 2 && RememberText(a, b + rest) == RememberText(a, b[2..] + rest)
  {
    var s := b + rest;
    assert s[0] == ESC && s[1] == b[1] >= 0x80;
    assert EscapeLen(s) == 2;
    assert s[..2] == [ESC, b[1]];
    assert s[2..] == b[2..] + rest;
    assert Remember(a, s[..2]) == a;
  }

  /** Reading escapes byte by byte finds the escapes of a word's tokens, and no others. */
  lemma {:induction false} RememberTextIsTokens(u: Tables, a: Active, ts: seq<Token>)
    requires Exact(u, true, ts) && NoOpenEscape(ts) && NoWhitespace(ts) && NoNewlines(ts)
    ensures RememberText(a, Flat(ts)) == RememberAll(a, ts)
    decreases |ts|
  {
    hide Remember, Decode, Run, Cluster, Harmless;
    if ts != [] {
      var t := ts[0];
      assert t in ts;
      var rest := Flat(ts[1..]);
      if t.Escape? {
        assert (t.bytes + rest)[..|t.bytes|] == t.bytes;
        assert (t.bytes + rest)[|t.bytes|..] == rest;
        assert Next(u, true, t.bytes + rest) == t;
        RememberTextIsTokens(u, Remember(a, t.bytes), ts[1..]);
      } else {
        GlyphHarmless(u, t, rest);
        SkipHarmless(a, t.bytes, rest);
        RememberTextIsTokens(u, a, ts[1..]);
      }
    }
  }

  // ---------------------------------------------------------------- one source token

  /** `done` are the tokens before the word. Their whitespace is drawn, dropped or still
      pending, in the style of the terminal. */
  ghost predicate WordStyle(w: Wrap, done: seq<Token>) {
    && InStyle(w, StyleAfter(PLAIN, done))
    && Drops(Spread(Cells(PLAIN, done)), DrawnSoFar(w) + BlankCells(w.pendingWidth, StyleAfter(PLAIN, done)))
    && (w.pending <==> w.pendingWidth > 0)
  }

  lemma FlushSpaceStyle(w: Wrap, done: seq<Token>)
    requires WordStyle(w, done)
    ensures var w1 := FlushSpace(w);
            && InStyle(w1, StyleAfter(PLAIN, done))
            && Drops(Spread(Cells(PLAIN, done)), DrawnSoFar(w1))
  {
    hide Drops, Replays, Cells, Drawn, StyleAfter, CurrentLine;
    var st := StyleAfter(PLAIN, done);
    var full := Spread(Cells(PLAIN, done));
    var k := w.pendingWidth;
    if !w.pending {
      EmptyBack(DrawnSoFar(w), BlankCells(k, st));
    } else if w.lineWidth == 0 && w.soft {
      DropsBlanks(full, DrawnSoFar(w), k, st);
    } else if Overflows(w, SpaceWidth(w) + w.wordWidth) {
      DropsBlanks(full, DrawnSoFar(w), k, st);
      PushLineStyle(w, false, st);
    } else {
      AddStyle(w, Blanks(k), k, st);
      BlankCellsOf(k, st);
    }
  }

  lemma PlaceWordStyle(u: Tables, w: Wrap, st: Style)
    requires InStyle(w, st) && AllFaithful(w.word)
    requires Exact(u, true, w.word) && NoOpenEscape(w.word) && NoWhitespace(w.word) && NoNewlines(w.word)
    ensures InStyle(PlaceWord(w), StyleAfter(st, w.word))
    ensures DrawnSoFar(PlaceWord(w)) == DrawnSoFar(w) + Cells(st, w.word)
  {
    hide Cells, Drawn, StyleAfter, Replays, AppendPiece, Exact, RememberText, RememberAll;
    if w.wordWidth <= w.target {
      AppendPieceStyle(w, w.word, w.wordWidth, st);
      RememberTextIsTokens(u, w.active, w.word);
      ReplayAll(w.active, st, w.word);
    } else {
      PlaceTokensStyle(w, w.word, st);
    }
  }

  ghost predicate GoodWord(u: Tables, word: seq<Token>) {
    Exact(u, true, word) && NoOpenEscape(word) && NoNewlines(word) && NoWhitespace(word) && AllFaithful(word)
  }

  lemma {:induction false} ExactNonEmpty(u: Tables, nl: bool, ts: seq<Token>)
    requires Exact(u, nl, ts)
    ensures NonEmpty(ts)
  {
    if ts != [] {
      ExactNonEmpty(u, nl, ts[1..]);
    }
  }

  lemma FlushWordStyle(u: Tables, w: Wrap, done: seq<Token>)
    requires WordStyle(w, done) && GoodWord(u, w.word)
    ensures WordStyle(FlushWord(w), done + w.word)
  {
    hide Drops, InStyle, Exact, NoOpenEscape, FlushSpace, PlaceWord, Cells, StyleAfter, Drawn, Spread;
    var st := StyleAfter(PLAIN, done);
    StyleAppend(PLAIN, done, w.word);
    if w.word == [] {
      EmptyBack(done, w.word);
    } else {
      var w1 := FlushSpace(w);
      FlushSpaceStyle(w, done);
      assert w1.word == w.word && !w1.pending && w1.pendingWidth == 0 by { FlushSpaceFields(w); }
      PlaceWordStyle(u, w1, st);
      ExactNonEmpty(u, true, w.word);
      SpreadWord(st, w.word);
      CellsAppend(PLAIN, done, w.word);
      SpreadAppend(Cells(PLAIN, done), Cells(st, w.word));
      DropsSame(Cells(st, w.word));
      DropsAppend(Spread(Cells(PLAIN, done)), DrawnSoFar(w1), Cells(st, w.word), Cells(st, w.word));
      PlaceWordFields(w1);
      FlushedStyle(w1, done + w.word);
    }
  }

  lemma FlushSpaceFields(w: Wrap)
    requires w.pending <==> w.pendingWidth > 0
    ensures FlushSpace(w).word == w.word && !FlushSpace(w).pending && FlushSpace(w).pendingWidth == 0
  {
  }

  lemma {:induction false} PlaceTokensFields(w: Wrap, ts: seq<Token>)
    ensures PlaceTokens(w, ts).pending == w.pending && PlaceTokens(w, ts).pendingWidth == w.pendingWidth
    decreases |ts|
  {
    if ts != [] {
      PlaceTokensFields(PlaceToken(w, ts[0]), ts[1..]);
    }
  }

  lemma PlaceWordFields(w: Wrap)
    ensures PlaceWord(w).pending == w.pending && PlaceWord(w).pendingWidth == w.pendingWidth
  {
    PlaceTokensFields(w, w.word);
  }

  lemma FlushedStyle(w1: Wrap, done: seq<Token>)
    requires InStyle(PlaceWord(w1), StyleAfter(PLAIN, done))
    requires Drops(Spread(Cells(PLAIN, done)), DrawnSoFar(PlaceWord(w1)))
    requires !PlaceWord(w1).pending && PlaceWord(w1).pendingWidth == 0
    ensures WordStyle(PlaceWord(w1).(word := [], wordWidth := 0), done)
  {
    hide Drops, PlaceWord, Replays;
    EmptyBack(DrawnSoFar(PlaceWord(w1)), BlankCells(0, StyleAfter(PLAIN, done)));
  }

  lemma NewlineStyle(f: Wrap, done: seq<Token>, t: Token)
    requires WordStyle(f, done) && t.Newline?
    ensures WordStyle(PushLine(f, false, true).(lineWidth := 0, pending := false, pendingWidth := 0, soft := false),
                      done + [t])
  {
    hide Drops, Replays, Cells, StyleAfter, Drawn, Spread, CurrentLine;
    var st := StyleAfter(PLAIN, done);
    StyleAppend(PLAIN, done, [t]);
    StyleOne(st, t);
    CellsAppend(PLAIN, done, [t]);
    OneCell(st, t);
    EmptyBack(Cells(PLAIN, done), []);
    PushLineStyle(f, true, st);
    DropsBlanks(Spread(Cells(PLAIN, done)), DrawnSoFar(f), f.pendingWidth, st);
    EmptyBack(DrawnSoFar(f), BlankCells(0, st));
  }

  lemma WhitespaceDrops(out: seq<Cell>, done: seq<Token>, t: Token, pending: nat)
    requires IsWhitespace(t)
    requires Drops(Spread(Cells(PLAIN, done)), out + BlankCells(pending, StyleAfter(PLAIN, done)))
    ensures var k := if t.width > 0 then t.width else 1;
            && StyleAfter(PLAIN, done + [t]) == StyleAfter(PLAIN, done)
            && Drops(Spread(Cells(PLAIN, done + [t])), out + BlankCells(pending + k, StyleAfter(PLAIN, done)))
  {
    hide Drops, Cells, StyleAfter, Spread;
    var st := StyleAfter(PLAIN, done);
    var k := if t.width > 0 then t.width else 1;
    StyleAppend(PLAIN, done, [t]);
    StyleOne(st, t);
    CellsAppend(PLAIN, done, [t]);
    OneCell(st, t);
    SpreadAppend(Cells(PLAIN, done), Cells(st, [t]));
    SpreadOne(t, st);
    DropsSame(BlankCells(k, st));
    DropsAppend(Spread(Cells(PLAIN, done)), out + BlankCells(pending, st), BlankCells(k, st), BlankCells(k, st));
    Assoc(out, BlankCells(pending, st), BlankCells(k, st));
    BlankCellsAdd(pending, k, st);
  }

  lemma WhitespaceStyle(f: Wrap, done: seq<Token>, t: Token)
    requires WordStyle(f, done) && IsWhitespace(t)
    ensures WordStyle(f.(pending := true, pendingWidth := f.pendingWidth + (if t.width > 0 then t.width else 1)),
                      done + [t])
  {
    hide Drops, Replays, Cells, StyleAfter, Drawn, Spread, CurrentLine, BlankCells;
    WhitespaceDrops(DrawnSoFar(f), done, t, f.pendingWidth);
  }

  lemma SpreadOne(t: Token, st: Style)
    requires IsWhitespace(t)
    ensures Spread([Cell(t.bytes, t.width, st)]) == BlankCells(if t.width > 0 then t.width else 1, st)
  {
    var c := Cell(t.bytes, t.width, st);
    assert [c][1..] == [];
    EmptyBack(BlankCells(if t.width > 0 then t.width else 1, st), []);
  }

  /** What the source must be for styles to survive: see AllFaithful and NoOpenEscape. */
  ghost predicate Drawable(u: Tables, ts: seq<Token>) {
    Exact(u, true, ts) && AllFaithful(ts) && NoOpenEscape(ts)
  }

  ghost predicate BetweenTokens(u: Tables, w: Wrap, done: seq<Token>, rest: seq<Token>) {
    && WordStyle(w, done) && GoodWord(u, w.word) && Drawable(u, w.word + rest)
  }

  lemma StepWordStyle(u: Tables, w: Wrap, done: seq<Token>, t: Token, rest: seq<Token>)
    requires BetweenTokens(u, w, done, [t] + rest)
    ensures var w2 := StepWord(w, t);
            BetweenTokens(u, w2, if w2.word == [] then done + w.word + [t] else done, rest)
    ensures StepWord(w, t).word == [] || StepWord(w, t).word == w.word + [t]
  {
    hide Exact, WordStyle, FlushWord, Faithful;
    Assoc(w.word, [t], rest);
    if t.Newline? || IsWhitespace(t) {
      FlushWordStyle(u, w, done);
      FlushWordEmpties(w);
      ExactSuffix(u, true, w.word, [t] + rest);
      ExactSuffix(u, true, [t], rest);
      EmptyFront([], rest);
      NothingGood(u);
      if t.Newline? {
        NewlineStyle(FlushWord(w), done + w.word, t);
      } else {
        WhitespaceStyle(FlushWord(w), done + w.word, t);
      }
    } else {
      ExactPrefix(u, true, w.word + [t], rest);
      SameStyle(w, StepWord(w, t), done);
    }
  }

  lemma SameStyle(w: Wrap, w2: Wrap, done: seq<Token>)
    requires WordStyle(w, done)
    requires w2 == w.(word := w2.word, wordWidth := w2.wordWidth)
    ensures WordStyle(w2, done)
  {
    hide Drops, Replays;
  }

  lemma FlushWordEmpties(w: Wrap)
    ensures FlushWord(w).word == []
  {
  }

  lemma NothingGood(u: Tables)
    ensures GoodWord(u, [])
  {
  }

  lemma {:induction false} StepWordsStyle(u: Tables, w: Wrap, done: seq<Token>, ts: seq<Token>)
    returns (before: seq<Token>)
    requires BetweenTokens(u, w, done, ts)
    ensures BetweenTokens(u, StepWords(w, ts), before, [])
    ensures before + StepWords(w, ts).word == done + w.word + ts
    decreases |ts|
  {
    hide BetweenTokens, StepWord;
    if ts == [] {
      before := done;
      EmptyBack(done + w.word, ts);
    } else {
      var t, rest := ts[0], ts[1..];
      assert ts == [t] + rest;
      StepWordStyle(u, w, done, t, rest);
      var w2 := StepWord(w, t);
      var next := if w2.word == [] then done + w.word + [t] else done;
      before := StepWordsStyle(u, w2, next, rest);
      assert next + w2.word + rest == done + w.word + ([t] + rest);
    }
  }

  /** The lines, drawn one by one, show the text less some of its whitespace. */
  lemma WordsDrawn(u: Tables, target: nat, ts: seq<Token>)
    requires Drawable(u, ts)
    ensures var w := FlushWord(StepWords(Init(target), ts));
            Drops(Spread(Cells(PLAIN, ts)), DrawnSoFar(w))
  {
    hide Drawable, GoodWord;
    InitStyle(target);
    EmptyFront([], ts);
    NothingGood(u);
    var done := StepWordsStyle(u, Init(target), [], ts);
    var w := StepWords(Init(target), ts);
    FlushWordStyle(u, w, done);
    assert [] + [] + ts == ts;
    DropsBlanks(Spread(Cells(PLAIN, ts)), DrawnSoFar(FlushWord(w)), FlushWord(w).pendingWidth, StyleAfter(PLAIN, ts));
  }
}
