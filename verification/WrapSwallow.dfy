/**
 Which swallowed escape characters matter in word mode: the wrapper remembers escapes byte
 by byte, the terminal draws clusters, and the two differ exactly when a cluster that is
 drawn as it stands ends with an ESC.
 */
module WrapSwallow {
  import opened Bytes
  import opened Seqs
  import opened Scanner
  import opened Locality
  import opened Glue
  import opened Swallow
  import opened Sgr
  import opened SgrLimits
  import opened WrapModel
  import opened WrapWidth
  import opened WrapStyle
  import opened WrapWordsWidth
  import opened WrapWordsStyle
  import opened WrapWordsExact
  import opened WrapTheorems

  /** A cluster, as the scanner finds it when nothing follows. */
  predicate IsCluster(u: Tables, c: Token) {
    c.Glyph? && c.bytes != [] && Next(u, true, c.bytes) == c
  }

  const BOLD: Text := Single(['1' as int])
  const BOLD_PEN := PLAIN_PEN.(on := {Bold})

  /** What completes an ESC to a sequence. */
  function Letters(): seq<Token> {
    [Letter('[' as int), Letter('1' as int), Letter('m' as int)]
  }

  /** A word without escape sequences; its bytes hold one if c ends with an ESC. */
  function Word(c: Token): seq<Token> {
    [c] + Letters()
  }

  function Exposing(c: Token): seq<Token> {
    Word(c) + [BLANK] + [LETTER_B]
  }

  // ---------------------------------------------------------------- scanning

  /** Before a code point that its last state refuses, a run ends where it ended alone. */
  lemma {:induction false} RunStops(u: Tables, st: Scan, s: Text, x: Text)
    requires Run(u, st, s).n == |s| && x != [] && !IsContinuation(x[0])
    requires Extend(u, Run(u, st, s).st, Decode(x).cp) == None
    ensures Run(u, st, s + x) == Run(u, st, s)
    decreases |s|
  {
    hide Decode, Extend;
    if s == [] {
      EmptyFront(s, x);
    } else {
      var d := Decode(s);
      DecodeAppend(s, x);
      assert (s + x)[d.n..] == s[d.n..] + x;
      RunStops(u, Extend(u, st, d.cp).value, s[d.n..], x);
    }
  }

  /** A cluster that ends with an ESC ends there before any ASCII text. */
  lemma EscEndStops(u: Tables, c: Token, x: Text)
    requires IsCluster(u, c) && EndsWithEsc(c.bytes) && x != [] && x[0] < 0x80
    ensures StopsBefore(u, true, c, x)
  {
    hide Decode, Run, Extend;
    var s := c.bytes;
    assert s[0] != ESC && !AtNewline(s);
    var d := Decode(s);
    ClusterHarmless(u, s);
    assert s[..|s|] == s;
    AsciiIsOneByte(x);
    AsciiRefused(u, Cluster(u, s).st, x[0]);
    DecodeAppend(s, x);
    assert (s + x)[d.n..] == s[d.n..] + x;
    RunStops(u, Start(u, d.cp), s[d.n..], x);
    assert (s + x)[..|s|] == s;
  }

  /** The scanner reads the text of these tokens as these tokens. */
  lemma ExposingScans(u: Tables, c: Token)
    requires IsCluster(u, c) && OpensEscape(c)
    ensures Tokens(u, true, Flat(Exposing(c))) == Exposing(c)
  {
    hide StopsBefore, Exact, IsCluster;
    var rest := Letters() + [BLANK] + [LETTER_B];
    LettersExact(u, rest);
    EscEndStops(u, c, Flat(rest));
    ExactCons(u, true, c, rest);
    assert Exposing(c) == [c] + rest;
    ExactTokens(u, true, Exposing(c));
  }

  // ---------------------------------------------------------------- remembering

  lemma BoldSetsPen(p: Pen)
    ensures IsCsiM(BOLD) && !Resets(BOLD) && ApplyPen(p, BOLD) == SetAttribute(p, 1)
  {
    var ds := ['1' as int];
    assert ds[..0] == [];
    assert Value([]) == 0;
    assert Value(ds) == 1;
    SingleApplies(ds, 1, p);
  }

  lemma WordBytes(c: Token)
    requires EndsWithEsc(c.bytes)
    ensures Flat(Word(c)) == c.bytes[..|c.bytes| - 1] + BOLD
    ensures EscapeLen(BOLD) == 4 == |BOLD|
  {
    var ls := Letters();
    assert ls[1..] == [ls[1], ls[2]] && ls[1..][1..] == [ls[2]] && ls[1..][1..][1..] == [];
    assert Flat(ls[1..][1..]) == ['m' as int];
    assert Flat(ls[1..]) == ['1' as int, 'm' as int];
    assert Flat(ls) == ['[' as int, '1' as int, 'm' as int];
    assert Word(c)[1..] == ls;
    assert BOLD == [ESC, '[' as int, '1' as int, 'm' as int];
    assert BOLD[2..] == ['1' as int, 'm' as int] && BOLD[2..][1..] == ['m' as int];
    assert CsiLen(BOLD[2..][1..]) == 1 && CsiLen(BOLD[2..]) == 2;
    Snoc(c.bytes);
    assert BOLD[1..] == Flat(ls);
    assert BOLD == [ESC] + BOLD[1..];
    Assoc(c.bytes[..|c.bytes| - 1], [ESC], BOLD[1..]);
  }

  lemma BeforeLastHarmless(s: Text)
    requires HarmlessInside(s) && EndsWithEsc(s)
    ensures Harmless(s[..|s| - 1])
  {
    var t := s[..|s| - 1];
    forall k | 0 <= k < |t| && t[k] == ESC
      ensures k + 1 < |t| && t[k + 1] >= 0x80
    {
      assert s[k] == ESC && s[k + 1] >= 0x80;
    }
  }

  /** Read byte by byte, the word switches bold on. */
  lemma WordRemembered(u: Tables, c: Token)
    requires IsCluster(u, c) && OpensEscape(c)
    ensures RememberText(IDLE, Flat(Word(c))).sgr == [Escape(BOLD)]
    ensures RememberText(IDLE, Flat(Word(c))).link == []
  {
    hide Cluster, Word, Harmless, HarmlessInside;
    WordBytes(c);
    BoldSetsPen(PLAIN_PEN);
    EmptyBack(c.bytes, []);
    GlyphHarmless(u, c, []);
    BeforeLastHarmless(c.bytes);
    SkipHarmless(IDLE, c.bytes[..|c.bytes| - 1], BOLD);
    assert BOLD[..4] == BOLD && BOLD[4..] == [];
  }

  // ---------------------------------------------------------------- wrapping

  function Target(c: Token): nat
    requires c.Glyph?
  {
    c.width + 3
  }

  function AfterWord(c: Token): Wrap
    requires c.Glyph?
  {
    Init(Target(c)).(word := Word(c), wordWidth := Target(c))
  }

  lemma WordIsWord(c: Token)
    requires c.Glyph? && !IsWhitespace(c)
    ensures NoWhitespace(Word(c)) && NoNewlines(Word(c)) && Width(Word(c)) == Target(c) && Word(c) != []
  {
    var ls := Letters();
    WidthAppend([c], ls);
    OneToken(c);
    assert ls == [ls[0]] + [ls[1]] + [ls[2]];
    WidthAppend([ls[0]] + [ls[1]], [ls[2]]);
    WidthAppend([ls[0]], [ls[1]]);
    OneToken(ls[0]);
    OneToken(ls[1]);
    OneToken(ls[2]);
  }

  lemma {:induction false} StepAppend(w: Wrap, a: seq<Token>, b: seq<Token>)
    ensures StepWords(w, a + b) == StepWords(StepWords(w, a), b)
    decreases |a|
  {
    hide StepWord;
    if a == [] {
      EmptyFront(a, b);
    } else {
      ConsAppend(a, b);
      StepAppend(StepWord(w, a[0]), a[1..], b);
    }
  }

  lemma StepOne(w: Wrap, t: Token)
    ensures StepWords(w, [t]) == StepWord(w, t)
  {
    hide StepWord;
    assert [t][1..] == [];
  }

  lemma ExposingCollected(u: Tables, c: Token)
    requires IsCluster(u, c) && OpensEscape(c)
    ensures StepWords(Init(Target(c)), Exposing(c)) ==
            FlushWord(AfterWord(c)).(pending := true, pendingWidth := 1, word := [LETTER_B], wordWidth := 1)
  {
    hide FlushWord, Word, Cluster;
    var w := Init(Target(c));
    WordIsWord(c);
    WordCollected(w, Word(c));
    EmptyFront([], Word(c));
    StepAppend(w, Word(c), [BLANK]);
    StepAppend(w, Word(c) + [BLANK], [LETTER_B]);
    WordFlushed(u, c);
    var w5 := StepWord(AfterWord(c), BLANK);
    StepOne(AfterWord(c), BLANK);
    StepOne(w5, LETTER_B);
    EmptyFront([], [LETTER_B]);
  }

  lemma WordFlushed(u: Tables, c: Token)
    requires IsCluster(u, c) && OpensEscape(c)
    ensures var f := FlushWord(AfterWord(c));
            && f.body == Word(c) && f.lineWidth == Target(c) && f.open == [] && f.active.sgr == [Escape(BOLD)]
            && f.active.link == [] && f.target == Target(c) && f.word == [] && !f.pending && f.pendingWidth == 0
            && !f.soft && f.wordWidth == 0
  {
    hide RememberText, Word, Cluster;
    WordRemembered(u, c);
    WordIsWord(c);
    var w := AfterWord(c);
    assert FlushSpace(w) == w;
    EmptyFront([], Word(c));
  }

  /** The second word goes to a line of its own, and that line starts bold. */
  lemma SecondLineBold(u: Tables, c: Token)
    requires IsCluster(u, c) && OpensEscape(c)
    ensures var lines := WrapWords(Target(c), Exposing(c));
            lines != [] && lines[|lines| - 1] == Line([Escape(BOLD)], [LETTER_B], [], false)
  {
    hide RememberText, CurrentLine, Cluster, Word, StepWords;
    ExposingCollected(u, c);
    WordFlushed(u, c);
    var f := FlushWord(AfterWord(c));
    var w := f.(pending := true, pendingWidth := 1, word := [LETTER_B], wordWidth := 1);
    BrokenBeforeLetter(w);
  }

  lemma BrokenBeforeLetter(w: Wrap)
    requires w.pending && w.pendingWidth == 1 && w.word == [LETTER_B] && w.wordWidth == 1
    requires w.lineWidth == w.target > 0 && w.active.sgr == [Escape(BOLD)] && w.active.link == []
    ensures var lines := Finish(FlushWord(w)).lines;
            lines != [] && lines[|lines| - 1] == Line([Escape(BOLD)], [LETTER_B], [], false)
  {
    hide RememberText, CurrentLine;
    var s := FlushSpace(w);
    assert s.open == [Escape(BOLD)] && s.body == [] && !s.hard && s.lineWidth == 0;
    var p := PlaceWord(s);
    assert p.open == [Escape(BOLD)] && p.body == [LETTER_B] && !p.hard;
    var done := FlushWord(w);
    FlatHead([Escape(BOLD)] + [LETTER_B]);
    LastLine(done);
  }

  lemma BoldLastDrawn(lines: seq<Line>)
    requires lines != [] && lines[|lines| - 1] == Line([Escape(BOLD)], [LETTER_B], [], false)
    ensures Drawn(lines) != []
    ensures Drawn(lines)[|Drawn(lines)| - 1] == Cell(LETTER_B.bytes, 1, Style(BOLD_PEN, NoLink))
  {
    var l := lines[|lines| - 1];
    assert LineTokens(l) == [Escape(BOLD)] + [LETTER_B];
    LastCell(PLAIN, [Escape(BOLD)]);
    StyleOne(PLAIN, Escape(BOLD));
    BoldSetsPen(PLAIN_PEN);
    CsiKeepsLink(NoLink, BOLD);
  }

  lemma {:induction false} GlyphsOnly(st: Style, ts: seq<Token>)
    requires forall t :: t in ts ==> !t.Escape?
    ensures StyleAfter(st, ts) == st
    decreases |ts|
  {
    if ts != [] {
      assert ts[0] in ts;
      GlyphsOnly(st, ts[1..]);
    }
  }

  lemma DrawnDiffers(u: Tables, c: Token)
    requires IsCluster(u, c) && OpensEscape(c)
    ensures Visible(Drawn(WrapWords(Target(c), Exposing(c)))) != Visible(Cells(PLAIN, Exposing(c)))
  {
    hide WrapWords, Drawn, Cells, Visible, StyleAfter, Cluster;
    var lines := WrapWords(Target(c), Exposing(c));
    SecondLineBold(u, c);
    BoldLastDrawn(lines);
    LastCell(PLAIN, Word(c) + [BLANK]);
    GlyphsOnly(PLAIN, Word(c) + [BLANK]);
    VisibleLast(Drawn(lines));
    VisibleLast(Cells(PLAIN, Exposing(c)));
  }

  // ---------------------------------------------------------------- the exact condition

  /** All escapes are faithful, and no cluster but c opens an escape. */
  ghost predicate Apart(ts: seq<Token>, c: Token) {
    AllFaithful(ts) && forall t :: t in ts && OpensEscape(t) ==> t == c
  }

  /** c does no harm in word mode, in any text where nothing else does. */
  ghost predicate KeepsWords(u: Tables, c: Token) {
    forall text: Text, target: nat :: Apart(Tokens(u, true, text), c) ==> KeepsStyle(u, text, target, false)
  }

  lemma ExposingIsApart(c: Token)
    requires c.Glyph?
    ensures Apart(Exposing(c), c)
  {
    forall t | t in Exposing(c)
      ensures !t.Escape? && (OpensEscape(t) ==> t == c)
    {
    }
  }

  /** A text without any escape sequence, wrapped in word mode: the last letter is bold in
      the lines and plain in the text. */
  lemma OpenEscapeChangesStyle(u: Tables, c: Token)
    requires TableFacts(u) && IsCluster(u, c) && OpensEscape(c)
    ensures Apart(Tokens(u, true, Flat(Exposing(c))), c)
    ensures !KeepsStyle(u, Flat(Exposing(c)), Target(c), false)
  {
    hide TableFacts, WrapWords, Drawn, Cells, Visible, Screen, Texts, Apart, Exposing, Cluster, Drops;
    ExposingScans(u, c);
    ExposingIsApart(c);
    WordsExact(u, Target(c), Flat(Exposing(c)));
    ScreenIsDrawn(u, WrapWords(Target(c), Exposing(c)));
    DrawnDiffers(u, c);
  }

  /** The exact condition: a cluster keeps word-mode styles in every text whose escapes are
      faithful and whose other clusters open no escape, if and only if it is whitespace or
      its last byte is not ESC. */
  lemma KeepsWordsIff(u: Tables, c: Token)
    requires TableFacts(u) && IsCluster(u, c)
    ensures KeepsWords(u, c) <==> IsWhitespace(c) || !EndsWithEsc(c.bytes)
  {
    hide TableFacts, KeepsStyle, AllFaithful, Tokens, IsCluster, IsWhitespace, EndsWithEsc;
    assert c.Glyph? by { ClusterIsGlyph(u, c); }
    if OpensEscape(c) {
      OpenEscapeChangesStyle(u, c);
    } else {
      forall text: Text, target: nat | Apart(Tokens(u, true, text), c)
        ensures KeepsStyle(u, text, target, false)
      {
        StylesKept(u, text, target, false);
      }
    }
  }

  lemma ClusterIsGlyph(u: Tables, c: Token)
    requires IsCluster(u, c)
    ensures c.Glyph?
  {
  }

  /** There are such clusters: the letter a, a zero-width joiner, and an ESC. */
  const JOINED := Glyph(['a' as int, 0xe2, 0x80, 0x8d, ESC], 2)

  lemma JoinedOpensEscape(u: Tables)
    ensures IsCluster(u, JOINED) && OpensEscape(JOINED)
  {
    var s := JOINED.bytes;
    assert Decode(s) == Decoded('a' as int, 1);
    var s1 := s[1..];
    assert s1 == [0xe2, 0x80, 0x8d, ESC];
    assert Decode(s1) == Decoded(ZWJ, 3);
    var s2 := s1[3..];
    assert s2 == [ESC];
    assert Decode(s2) == Decoded(ESC, 1);
    var st0 := Start(u, 'a' as int);
    var st1 := st0.(zwj := true);
    assert Extend(u, st0, ZWJ) == Some(st1);
    var st2 := st1.(width := 2, zwj := false);
    assert Extend(u, st1, ESC) == Some(st2);
    assert s2[1..] == [];
    assert Run(u, st2, []) == Ran(0, st2);
    assert Run(u, st1, s2) == Ran(1, st2);
    assert Run(u, st0, s1) == Ran(4, st2);
    assert s[..5] == s;
  }
}
