/**
 The wrapper as the C code runs it: one context object with byte buffers, updated piece
 by piece. `model` is the token-level state that the buffers spell out.
 */
module WrapContext {
  import opened Bytes
  import opened Seqs
  import opened Scanner
  import opened Locality
  import opened Glue
  import opened ScanLoops
  import opened Sgr
  import opened SgrLoops
  import opened WrapModel
  import opened WrapTheorems

  /** The fields of a context, at one moment. */
  datatype Buffers = Buffers(
    width: nat, lines: seq<Text>, line: Text, word: Text, sgr: Text, hyperlink: Text,
    lineWidth: nat, wordWidth: nat, pending: bool, pendingWidth: nat, soft: bool,
    underline: bool, terminator: Byte)

  ghost predicate SpellsLines(b: Buffers, w: Wrap) {
    && b.width == w.target && b.lines == Texts(w.lines) && b.line == Flat(w.open + w.body)
    && b.lineWidth == w.lineWidth && b.soft == w.soft
  }

  ghost predicate SpellsActive(b: Buffers, a: Active) {
    && b.sgr == Flat(a.sgr) && b.hyperlink == Flat(a.link) && (b.hyperlink == [] <==> a.link == [])
    && b.underline == a.underline && b.terminator == a.terminator
  }

  ghost predicate SpellsWord(b: Buffers, w: Wrap) {
    && b.word == Flat(w.word) && (b.word == [] <==> w.word == []) && b.wordWidth == w.wordWidth
    && b.pending == w.pending && b.pendingWidth == w.pendingWidth
  }

  ghost predicate Spells(b: Buffers, w: Wrap) {
    SpellsLines(b, w) && SpellsActive(b, w.active) && SpellsWord(b, w)
  }

  // ---------------------------------------------------------------- what the operations do to the buffers

  function PushBuffers(b: Buffers, final: bool): Buffers {
    var off := if !final && b.line != [] && b.underline then UNDERLINE_OFF.bytes else [];
    var close := if !final && b.line != [] && b.hyperlink != [] then
                   if b.terminator == BEL then CLOSE_BEL.bytes else CLOSE_ST.bytes
                 else [];
    b.(lines := b.lines + [b.line + off + close], line := if final then [] else b.sgr + b.hyperlink)
  }

  lemma PushSpells(b: Buffers, w: Wrap, final: bool, hard: bool)
    requires Spells(b, w)
    ensures Spells(PushBuffers(b, final), PushLine(w, final, hard))
  {
    hide Closing;
    var w2 := PushLine(w, final, hard);
    LineTextOfCurrent(w, final);
    assert w2.lines[..|w2.lines| - 1] == w.lines;
    FlatAppend(w.active.sgr, w.active.link);
    EmptyBack(w2.open, w2.body);
  }

  function BreakBuffers(b: Buffers): Buffers {
    PushBuffers(b, false).(lineWidth := 0, soft := true)
  }

  lemma BreakSpells(b: Buffers, w: Wrap)
    requires Spells(b, w)
    ensures Spells(BreakBuffers(b), SoftBreak(w))
  {
    hide PushBuffers, CurrentLine, Opening;
    PushSpells(b, w, false, false);
  }

  function AddBuffers(b: Buffers, piece: Text, width: nat): Buffers {
    b.(line := b.line + piece, lineWidth := b.lineWidth + width, soft := if width == 0 then b.soft else false)
  }

  lemma AddSpells(b: Buffers, w: Wrap, tokens: seq<Token>, width: nat)
    requires Spells(b, w)
    ensures Spells(AddBuffers(b, Flat(tokens), width), Add(w, tokens, width))
  {
    AddText(w, tokens);
  }

  function AppendBuffers(b: Buffers, piece: Text, width: nat): Buffers {
    if width > 0 && b.lineWidth > 0 && b.lineWidth + width > b.width then AddBuffers(BreakBuffers(b), piece, width)
    else AddBuffers(b, piece, width)
  }

  lemma AppendSpells(b: Buffers, w: Wrap, tokens: seq<Token>, width: nat)
    requires Spells(b, w)
    ensures Spells(AppendBuffers(b, Flat(tokens), width), AppendPiece(w, tokens, width))
  {
    hide SpellsActive, SpellsWord, BreakBuffers, AddBuffers, SoftBreak, Add;
    if width > 0 && Overflows(w, width) {
      BreakSpells(b, w);
      AddSpells(BreakBuffers(b), SoftBreak(w), tokens, width);
    } else {
      AddSpells(b, w, tokens, width);
    }
  }

  function RememberBuffers(b: Buffers, e: Text): Buffers {
    if IsCsiM(e) then
      if Resets(e) then b.(sgr := [], underline := false)
      else b.(sgr := b.sgr + e, underline := Underline(b.underline, Body(e)))
    else
      match ReadLink(e)
      case Untouched => b
      case Closed => b.(hyperlink := [], terminator := 0)
      case Opened(t) => b.(hyperlink := e, terminator := t)
  }

  lemma RememberCsi(b: Buffers, a: Active, e: Text)
    requires SpellsActive(b, a) && IsCsiM(e)
    ensures SpellsActive(RememberBuffers(b, e), Remember(a, e))
  {
    hide Resets, Underline;
    FlatOne(Escape(e));
    FlatAppend(a.sgr, [Escape(e)]);
  }

  lemma RememberLink(b: Buffers, a: Active, e: Text)
    requires SpellsActive(b, a) && !IsCsiM(e) && e != []
    ensures SpellsActive(RememberBuffers(b, e), Remember(a, e))
  {
    hide ReadLink, IsCsiM, Resets, Underline;
    FlatOne(Escape(e));
  }

  lemma RememberElsewhere(b: Buffers, e: Text)
    ensures var b2 := RememberBuffers(b, e);
            b2.(sgr := b.sgr, hyperlink := b.hyperlink, underline := b.underline, terminator := b.terminator) == b
  {
    hide Resets, Underline, ReadLink, IsCsiM;
  }

  lemma RememberSpells(b: Buffers, w: Wrap, e: Text)
    requires Spells(b, w) && e != []
    ensures Spells(RememberBuffers(b, e), w.(active := Remember(w.active, e)))
  {
    hide SpellsActive, Remember, RememberBuffers, IsCsiM;
    if IsCsiM(e) {
      RememberCsi(b, w.active, e);
    } else {
      RememberLink(b, w.active, e);
    }
    RememberElsewhere(b, e);
  }

  lemma BlankSpells(b: Buffers, w0: Wrap, k: nat)
    requires Spells(b, w0.(body := w0.body + Blanks(k)))
    ensures Spells(b.(line := b.line + [SPACE]), w0.(body := w0.body + Blanks(k + 1)))
  {
    BlanksSnoc(k);
    Assoc(w0.body, Blanks(k), [BLANK]);
    FlatOne(BLANK);
    AddText(w0.(body := w0.body + Blanks(k)), [BLANK]);
  }

  class Context {
    const width: nat
    var lines: seq<Text>
    var line: Text
    var word: Text
    var activeSgr: Text
    var activeHyperlink: Text
    var lineWidth: nat
    var wordWidth: nat
    var pendingSpace: bool
    var pendingSpaceWidth: nat
    var softWrapped: bool
    var activeUnderline: bool
    var activeHyperlinkTerminator: Byte
    ghost var model: Wrap

    function State(): Buffers
      reads this
    {
      Buffers(width, lines, line, word, activeSgr, activeHyperlink, lineWidth, wordWidth, pendingSpace,
              pendingSpaceWidth, softWrapped, activeUnderline, activeHyperlinkTerminator)
    }

    ghost predicate Valid()
      reads this
    {
      Spells(State(), model)
    }

    constructor (width: nat)
      ensures Valid() && this.width == width && model == Init(width)
    {
      this.width := width;
      lines, line, word, activeSgr, activeHyperlink := [], [], [], [], [];
      lineWidth, wordWidth, pendingSpace, pendingSpaceWidth := 0, 0, false, 0;
      softWrapped, activeUnderline, activeHyperlinkTerminator := false, false, 0;
      model := Init(width);
    }

    // -------------------------------------------------------------- active styles

    method UpdateActiveEscape(e: Text)
      requires Valid() && e != []
      modifies `activeSgr, `activeHyperlink, `activeUnderline, `activeHyperlinkTerminator, `model
      ensures Valid() && State() == RememberBuffers(old(State()), e)
      ensures model == old(model).(active := Remember(old(model).active, e))
    {
      hide Spells, Resets, Underline, Remember;
      if |e| >= 2 && e[0] == ESC && e[1] == '[' as int {
        if |e| >= 3 && e[|e| - 1] == 'm' as int {
          var resets := SgrResets(e);
          activeUnderline := UnderlineAfterSgr(e, activeUnderline);
          activeSgr := if resets then [] else activeSgr + e;
        }
      } else if |e| >= 2 && e[0] == ESC && e[1] == ']' as int {
        var change := ReadOsc8(e);
        match change {
          case Untouched =>
          case Closed =>
            activeHyperlink := [];
            activeHyperlinkTerminator := 0;
          case Opened(terminator) =>
            activeHyperlink := e;
            activeHyperlinkTerminator := terminator;
        }
      }
      RememberSpells(old(State()), model, e);
      model := model.(active := Remember(model.active, e));
    }

    method UpdateActiveFromText(text: Text)
      requires Valid()
      modifies `activeSgr, `activeHyperlink, `activeUnderline, `activeHyperlinkTerminator, `model
      ensures Valid()
      ensures model == old(model).(active := RememberText(old(model).active, text))
    {
      hide Spells, Remember, RememberBuffers, EscapeLen;
      var i := 0;
      assert text[0..] == text;
      while i < |text|
        invariant 0 <= i <= |text| && Valid()
        invariant RememberText(model.active, text[i..]) == RememberText(old(model).active, text)
        invariant model == old(model).(active := model.active)
      {
        var found, next := ReadEscape(text, i);
        if found {
          DropDrop(text, i, next - i);
          assert text[i..][..next - i] == text[i..next];
          UpdateActiveEscape(text[i..next]);
        } else {
          next := i + 1;
          DropDrop(text, i, 1);
        }
        i := next;
      }
    }

    // -------------------------------------------------------------- lines

    method PushLine(final: bool, ghost hard: bool)
      requires Valid()
      modifies `lines, `line, `model
      ensures Valid() && State() == PushBuffers(old(State()), final)
      ensures model == WrapModel.PushLine(old(model), final, hard)
    {
      hide Spells, WrapModel.PushLine;
      EmptyBack(line, []);
      EmptyBack(line + UNDERLINE_OFF.bytes, []);
      EmptyFront([], activeSgr);
      EmptyBack(activeSgr, []);
      EmptyFront([], activeHyperlink);
      if !final && |line| > 0 && activeUnderline {
        line := line + UNDERLINE_OFF.bytes;
      }
      if !final && |line| > 0 && |activeHyperlink| > 0 {
        line := line + (if activeHyperlinkTerminator == BEL then CLOSE_BEL.bytes else CLOSE_ST.bytes);
      }
      lines := lines + [line];
      line := [];
      if !final && |activeSgr| > 0 {
        line := line + activeSgr;
      }
      if !final && |activeHyperlink| > 0 {
        line := line + activeHyperlink;
      }
      PushSpells(old(State()), model, final, hard);
      model := WrapModel.PushLine(model, final, hard);
    }

    method SoftBreakLine()
      requires Valid()
      modifies `lines, `line, `lineWidth, `softWrapped, `model
      ensures Valid() && State() == BreakBuffers(old(State()))
      ensures model == SoftBreak(old(model))
    {
      hide Spells, WrapModel.PushLine, PushBuffers;
      BreakSpells(State(), model);
      PushLine(false, false);
      lineWidth := 0;
      softWrapped := true;
      model := SoftBreak(old(model));
    }

    method AppendPiece(piece: Text, pieceWidth: nat, ghost tokens: seq<Token>)
      requires Valid() && piece == Flat(tokens)
      modifies `lines, `line, `lineWidth, `softWrapped, `model
      ensures Valid() && State() == AppendBuffers(old(State()), piece, pieceWidth)
      ensures model == WrapModel.AppendPiece(old(model), tokens, pieceWidth)
    {
      hide Spells, WrapModel.AppendPiece, BreakBuffers;
      AppendSpells(State(), model, tokens, pieceWidth);
      if pieceWidth == 0 {
        line := line + piece;
      } else {
        if lineWidth > 0 && lineWidth + pieceWidth > width {
          SoftBreakLine();
        }
        line := line + piece;
        lineWidth := lineWidth + pieceWidth;
        softWrapped := false;
      }
      model := WrapModel.AppendPiece(old(model), tokens, pieceWidth);
    }

    // -------------------------------------------------------------- words

    method AppendSpaces(spaceWidth: nat)
      requires Valid()
      modifies `line, `lineWidth, `model
      ensures Valid()
      ensures model == old(model).(body := old(model).body + Blanks(spaceWidth),
                                   lineWidth := old(model).lineWidth + spaceWidth)
    {
      hide Flat, Texts;
      ghost var w := model;
      EmptyBack(w.body, Blanks(0));
      for k := 0 to spaceWidth
        invariant Spells(State(), w.(body := w.body + Blanks(k)))
        invariant model == w
      {
        BlankSpells(State(), w, k);
        line := line + [SPACE];
      }
      lineWidth := lineWidth + spaceWidth;
      model := w.(body := w.body + Blanks(spaceWidth), lineWidth := w.lineWidth + spaceWidth);
    }

    method FlushPendingSpace()
      requires Valid()
      modifies `lines, `line, `lineWidth, `softWrapped, `pendingSpace, `pendingSpaceWidth, `model
      ensures Valid()
      ensures model == FlushSpace(old(model))
    {
      hide Flat, Texts, Blanks, SoftBreak, BreakBuffers;
      if pendingSpace {
        var spaceWidth := if pendingSpaceWidth > 0 then pendingSpaceWidth else 1;
        if lineWidth == 0 && softWrapped {
        } else if lineWidth > 0 && lineWidth + spaceWidth + wordWidth > width {
          SoftBreakLine();
        } else {
          AppendSpaces(spaceWidth);
        }
      }
      pendingSpace := false;
      pendingSpaceWidth := 0;
      model := model.(pending := false, pendingWidth := 0);
    }

    /** Places the word token by token, scanning its bytes again. */
    method PlaceWordTokens(u: Tables)
      requires Valid() && Exact(u, false, model.word)
      modifies `lines, `line, `lineWidth, `softWrapped, `model
      modifies `activeSgr, `activeHyperlink, `activeUnderline, `activeHyperlinkTerminator
      ensures Valid()
      ensures model == PlaceTokens(old(model), old(model).word)
    {
      hide Spells, Remember, RememberBuffers, AppendBuffers, Cluster, EscapeLen, WrapModel.AppendPiece, Exact,
           PlaceTokens;
      var j := 0;
      ghost var rest := model.word;
      assert word[0..] == word;
      WordSpelled(State(), model);
      while j < |word|
        invariant 0 <= j <= |word| && Valid()
        invariant Exact(u, false, rest)
        invariant word[j..] == Flat(rest)
        invariant PlaceTokens(model, rest) == PlaceTokens(old(model), old(model).word)
        decreases |word| - j
      {
        RestStep(u, word, j, rest);
        FlatOne(rest[0]);
        PlaceHead(model, rest);
        var found, next := ReadEscape(word, j);
        if found {
          EscapePlaced(model, rest[0]);
          AppendPiece(word[j..next], 0, [rest[0]]);
          UpdateActiveEscape(word[j..next]);
        } else {
          var clusterWidth;
          next, clusterWidth := NextCluster(u, word, j);
          AppendPiece(word[j..next], clusterWidth, [rest[0]]);
        }
        j := next;
        rest := rest[1..];
      }
      RestEnd(u, rest);
      NothingLeft(model);
    }

    method PlaceWholeWord()
      requires Valid()
      modifies `lines, `line, `lineWidth, `softWrapped, `model
      modifies `activeSgr, `activeHyperlink, `activeUnderline, `activeHyperlinkTerminator
      ensures Valid()
      ensures var placed := WrapModel.AppendPiece(old(model), old(model).word, old(model).wordWidth);
              model == placed.(active := RememberText(placed.active, Flat(old(model).word)))
    {
      hide Spells, WrapModel.AppendPiece, RememberText, AppendBuffers;
      WordSpelled(State(), model);
      AppendPiece(word, wordWidth, model.word);
      UpdateActiveFromText(word);
    }

    method FlushWord(u: Tables)
      requires Valid() && Exact(u, false, model.word)
      modifies this
      ensures Valid()
      ensures model == WrapModel.FlushWord(old(model))
    {
      hide Spells, RememberText, FlushSpace, PlaceTokens, WrapModel.AppendPiece, Exact;
      WordSpelled(State(), model);
      if |word| == 0 {
        return;
      }
      FlushSpaceWord(model);
      FlushPendingSpace();
      WordSpelled(State(), model);
      if wordWidth <= width {
        PlaceWholeWord();
      } else {
        PlaceWordTokens(u);
      }
      WordlessSpells(State(), model);
      word := [];
      wordWidth := 0;
      model := model.(word := [], wordWidth := 0);
    }

    method EndLine()
      requires Valid()
      modifies `lines, `line, `lineWidth, `model
      ensures Valid()
      ensures model == WrapModel.PushLine(old(model), false, true).(lineWidth := 0)
    {
      hide Spells, WrapModel.PushLine, PushBuffers;
      PushLine(false, true);
      HardBreakSpells(State(), model);
      lineWidth := 0;
      model := model.(lineWidth := 0);
    }

    /** One round of the preserve loop; t is the token at i. */
    method PreserveAt(u: Tables, text: Text, i: nat, ghost t: Token) returns (next: nat)
      requires Valid() && IsTokenAt(u, text, i, t)
      modifies this
      ensures Valid() && model == PlaceToken(old(model), t) && next == i + |t.bytes|
    {
      hide Spells, Remember, RememberBuffers, AppendBuffers, Cluster, EscapeLen, NewlineLen, WrapModel.AppendPiece,
           WrapModel.PushLine;
      FlatOne(t);
      var found;
      found, next := ReadEscape(text, i);
      if found {
        EscapePlaced(model, t);
        AppendPiece(text[i..next], 0, [t]);
        UpdateActiveEscape(text[i..next]);
      } else {
        found, next := HardNewlineEnd(text, i);
        if found {
          EndLine();
        } else {
          var clusterWidth;
          next, clusterWidth := NextCluster(u, text, i);
          AppendPiece(text[i..next], clusterWidth, [t]);
        }
      }
    }

    /** The loop of preserve mode. */
    method Preserve(u: Tables, text: Text)
      requires Valid()
      modifies this
      ensures Valid()
      ensures model == PlaceTokens(old(model), Tokens(u, true, text))
    {
      hide *;
      var i := 0;
      ghost var goal := PlaceTokens(model, TokensFrom(u, text, 0));
      TextEnds(u, text);
      while i < |text|
        invariant 0 <= i <= |text| && Valid()
        invariant PlaceTokens(model, TokensFrom(u, text, i)) == goal
      {
        ghost var t := PreserveNext(u, text, i, model);
        i := PreserveAt(u, text, i, t);
      }
      NothingLeft(model);
    }

    method GrowWord(piece: Text, width: nat, ghost t: Token)
      requires Valid() && piece == t.bytes != []
      modifies `word, `wordWidth, `model
      ensures Valid()
      ensures model == old(model).(word := old(model).word + [t], wordWidth := old(model).wordWidth + width)
    {
      hide Spells;
      WordGrows(State(), model, t, width);
      word := word + piece;
      wordWidth := wordWidth + width;
      model := model.(word := model.word + [t], wordWidth := model.wordWidth + width);
    }

    method EndSourceLine(u: Tables)
      requires Valid() && Exact(u, false, model.word)
      modifies this
      ensures Valid()
      ensures model == WrapModel.PushLine(WrapModel.FlushWord(old(model)), false, true)
                       .(lineWidth := 0, pending := false, pendingWidth := 0, soft := false)
    {
      hide Spells, WrapModel.FlushWord, WrapModel.PushLine, Exact, PushBuffers;
      FlushWord(u);
      PushLine(false, true);
      NewlineSpells(State(), model);
      lineWidth := 0;
      pendingSpace := false;
      pendingSpaceWidth := 0;
      softWrapped := false;
      model := model.(lineWidth := 0, pending := false, pendingWidth := 0, soft := false);
    }

    method AddWhitespace(u: Tables, clusterWidth: nat)
      requires Valid() && Exact(u, false, model.word)
      modifies this
      ensures Valid()
      ensures var f := WrapModel.FlushWord(old(model));
              var more := if clusterWidth > 0 then clusterWidth else 1;
              model == f.(pending := true, pendingWidth := f.pendingWidth + more)
    {
      hide Spells, WrapModel.FlushWord, Exact;
      FlushWord(u);
      var more := if clusterWidth > 0 then clusterWidth else 1;
      WhitespaceSpells(State(), model, more);
      pendingSpace := true;
      pendingSpaceWidth := pendingSpaceWidth + more;
      model := model.(pending := true, pendingWidth := model.pendingWidth + more);
    }

    /** One round of the word loop; t is the token at i. */
    method WordAt(u: Tables, text: Text, i: nat, ghost t: Token) returns (next: nat)
      requires Valid() && IsTokenAt(u, text, i, t) && Exact(u, false, model.word)
      modifies this
      ensures Valid() && model == StepWord(old(model), t) && next == i + |t.bytes|
    {
      hide Spells, Cluster, EscapeLen, NewlineLen, WrapModel.FlushWord, WrapModel.PushLine, Exact;
      var found;
      found, next := ReadEscape(text, i);
      if found {
        GrowWord(text[i..next], 0, t);
      } else {
        found, next := HardNewlineEnd(text, i);
        if found {
          EndSourceLine(u);
        } else {
          var clusterWidth;
          next, clusterWidth := NextCluster(u, text, i);
          if text[i] == SPACE || text[i] == TAB {
            AddWhitespace(u, clusterWidth);
          } else {
            GrowWord(text[i..next], clusterWidth, t);
          }
        }
      }
    }

    /** The loop of word mode. */
    method Words(u: Tables, text: Text)
      requires Valid() && model.word == []
      modifies this
      ensures Valid()
      ensures model == StepWords(old(model), Tokens(u, true, text))
      ensures Exact(u, false, model.word)
    {
      hide *;
      var i := 0;
      ghost var goal := StepWords(model, TokensFrom(u, text, 0));
      TextEnds(u, text);
      WordStart(u, text, model);
      while i < |text|
        invariant 0 <= i <= |text| && Valid()
        invariant StepWords(model, TokensFrom(u, text, i)) == goal
        invariant WordSoFar(u, model, TokensFrom(u, text, i))
      {
        ghost var t := WordsNext(u, text, i, model);
        i := WordAt(u, text, i, t);
      }
      NothingLeft(model);
      WordEnd(u, model);
    }
  }

  /** wrap_ansi: the lines of a text, at least one cell wide, in either mode. */
  method WrapAnsi(u: Tables, text: Text, widthArg: int, preserve: bool) returns (lines: seq<Text>)
    ensures lines == Texts(WrapText(u, text, if widthArg < 1 then 1 else widthArg, preserve))
  {
    var width := if widthArg < 1 then 1 else widthArg;
    var wrap := new Context(width);
    if preserve {
      wrap.Preserve(u, text);
    } else {
      wrap.Words(u, text);
      wrap.FlushWord(u);
    }
    LinesSpelled(wrap.State(), wrap.model);
    if |wrap.line| > 0 || |wrap.lines| == 0 {
      wrap.PushLine(true, false);
      LinesSpelled(wrap.State(), wrap.model);
    }
    lines := wrap.lines;
  }

  // ---------------------------------------------------------------- facts about the buffers

  lemma FlatOne(t: Token)
    ensures Flat([t]) == t.bytes
  {
    assert [t][1..] == [];
    assert Flat([t]) == t.bytes + [];
  }

  lemma AddText(w: Wrap, tokens: seq<Token>)
    ensures Flat(w.open + (w.body + tokens)) == Flat(w.open + w.body) + Flat(tokens)
  {
    Assoc(w.open, w.body, tokens);
    FlatAppend(w.open + w.body, tokens);
  }

  lemma {:induction false} BlanksSnoc(k: nat)
    ensures Blanks(k + 1) == Blanks(k) + [BLANK]
  {
    if k > 0 {
      BlanksSnoc(k - 1);
      Assoc([BLANK], Blanks(k - 1), [BLANK]);
    }
  }

  lemma LineTextOfCurrent(w: Wrap, final: bool)
    ensures LineText(CurrentLine(w, final)) ==
            Flat(w.open + w.body)
            + (if !final && Flat(w.open + w.body) != [] && w.active.underline then UNDERLINE_OFF.bytes else [])
            + (if !final && Flat(w.open + w.body) != [] && w.active.link != [] then
                 if w.active.terminator == BEL then CLOSE_BEL.bytes else CLOSE_ST.bytes
               else [])
  {
    var l := CurrentLine(w, final);
    FlatAppend(w.open + w.body, l.close);
    FlatOne(UNDERLINE_OFF);
    FlatOne(CLOSE_BEL);
    FlatOne(CLOSE_ST);
    FlatAppend([UNDERLINE_OFF], [CLOSE_BEL]);
    FlatAppend([UNDERLINE_OFF], [CLOSE_ST]);
  }

  lemma WordSpelled(b: Buffers, w: Wrap)
    requires Spells(b, w)
    ensures b.word == Flat(w.word) && (b.word == [] <==> w.word == [])
    ensures b.wordWidth == w.wordWidth && b.width == w.target
  {
  }

  lemma WordlessSpells(b: Buffers, w: Wrap)
    requires Spells(b, w)
    ensures Spells(b.(word := [], wordWidth := 0), w.(word := [], wordWidth := 0))
  {
  }

  lemma FlushSpaceWord(w: Wrap)
    ensures FlushSpace(w).word == w.word
  {
  }

  lemma EscapePlaced(w: Wrap, t: Token)
    requires t.Escape?
    ensures var w1 := AppendPiece(w, [t], 0);
            w1.(active := Remember(w1.active, t.bytes)) == PlaceToken(w, t)
  {
  }

  lemma RestEnd(u: Tables, rest: seq<Token>)
    requires Exact(u, false, rest) && Flat(rest) == []
    ensures rest == []
  {
  }

  /** The next token of the rest of the word, as the scanner finds it. */
  lemma RestStep(u: Tables, word: Text, j: nat, rest: seq<Token>)
    requires j < |word| && word[j..] == Flat(rest) && Exact(u, false, rest)
    ensures rest != [] && Exact(u, false, rest[1..])
    ensures word[j] == ESC ==>
              var n := EscapeLen(word[j..]);
              rest[0] == Escape(word[j..j + n]) && word[j + n..] == Flat(rest[1..])
    ensures word[j] != ESC ==>
              var c := Cluster(u, word[j..]);
              rest[0] == Glyph(word[j..j + c.n], c.st.width) && word[j + c.n..] == Flat(rest[1..])
  {
    hide Cluster, EscapeLen;
    var t := Next(u, false, word[j..]);
    assert t == rest[0];
    var n := |t.bytes|;
    DropDrop(word, j, n);
    assert word[j..j + n] == word[j..][..n];
    assert (rest[0].bytes + Flat(rest[1..]))[n..] == Flat(rest[1..]);
  }

  // ---------------------------------------------------------------- facts about the main loops

  lemma LinesSpelled(b: Buffers, w: Wrap)
    requires Spells(b, w)
    ensures b.lines == Texts(w.lines) && b.line == Flat(w.open + w.body) && |b.lines| == |w.lines|
  {
  }

  lemma HardBreakSpells(b: Buffers, w: Wrap)
    requires Spells(b, w)
    ensures Spells(b.(lineWidth := 0), w.(lineWidth := 0))
  {
  }

  lemma NewlineSpells(b: Buffers, w: Wrap)
    requires Spells(b, w)
    ensures Spells(b.(lineWidth := 0, pending := false, pendingWidth := 0, soft := false),
                   w.(lineWidth := 0, pending := false, pendingWidth := 0, soft := false))
  {
  }

  lemma WhitespaceSpells(b: Buffers, w: Wrap, more: nat)
    requires Spells(b, w)
    ensures Spells(b.(pending := true, pendingWidth := b.pendingWidth + more),
                   w.(pending := true, pendingWidth := w.pendingWidth + more))
  {
  }

  lemma WordGrows(b: Buffers, w: Wrap, t: Token, k: nat)
    requires Spells(b, w) && t.bytes != []
    ensures Spells(b.(word := b.word + t.bytes, wordWidth := b.wordWidth + k),
                   w.(word := w.word + [t], wordWidth := w.wordWidth + k))
  {
    FlatAppend(w.word, [t]);
    FlatOne(t);
  }

  /** t is the token at i, as the three scanners find it. */
  ghost predicate IsTokenAt(u: Tables, text: Text, i: nat, t: Token) {
    && i < |text| && t.bytes != [] && i + |t.bytes| <= |text| && t.bytes == text[i..i + |t.bytes|]
    && (text[i] == ESC ==> t.Escape? && |t.bytes| == EscapeLen(text[i..]))
    && (text[i] != ESC && AtNewline(text[i..]) ==> t.Newline? && |t.bytes| == NewlineLen(text[i..]))
    && (text[i] != ESC && !AtNewline(text[i..]) ==>
          t.Glyph? && |t.bytes| == Cluster(u, text[i..]).n && t.width == Cluster(u, text[i..]).st.width)
  }

  ghost function TokensFrom(u: Tables, text: Text, i: nat): seq<Token>
    requires i <= |text|
  {
    Tokens(u, true, text[i..])
  }

  lemma TextEnds(u: Tables, text: Text)
    ensures TokensFrom(u, text, 0) == Tokens(u, true, text) && TokensFrom(u, text, |text|) == []
  {
    assert text[0..] == text;
  }

  lemma TextStep(u: Tables, text: Text, i: nat) returns (t: Token)
    requires i < |text|
    ensures IsTokenAt(u, text, i, t) && i + |t.bytes| <= |text| && t.bytes != []
    ensures TokensFrom(u, text, i) == [t] + TokensFrom(u, text, i + |t.bytes|)
  {
    hide Cluster, EscapeLen, NewlineLen;
    t := Next(u, true, text[i..]);
    DropDrop(text, i, |t.bytes|);
    assert text[i..][..|t.bytes|] == text[i..i + |t.bytes|];
  }

  lemma NothingLeft(w: Wrap)
    ensures PlaceTokens(w, []) == w && StepWords(w, []) == w
  {
  }

  lemma PlaceHead(w: Wrap, ts: seq<Token>)
    requires ts != []
    ensures PlaceTokens(w, ts) == PlaceTokens(PlaceToken(w, ts[0]), ts[1..])
  {
  }

  lemma PlaceFirst(w: Wrap, t: Token, rest: seq<Token>)
    ensures PlaceTokens(w, [t] + rest) == PlaceTokens(PlaceToken(w, t), rest)
  {
    hide PlaceToken;
    assert ([t] + rest)[1..] == rest;
  }

  lemma StepFirst(w: Wrap, t: Token, rest: seq<Token>)
    ensures StepWords(w, [t] + rest) == StepWords(StepWord(w, t), rest)
  {
    hide StepWord;
    assert ([t] + rest)[1..] == rest;
  }

  /** The word and what is left of the text are neighbours in the source. */
  ghost predicate WordSoFar(u: Tables, w: Wrap, rest: seq<Token>) {
    Exact(u, true, w.word + rest) && forall t :: t in w.word ==> !t.Newline?
  }

  lemma WordStart(u: Tables, text: Text, w: Wrap)
    requires w.word == []
    ensures WordSoFar(u, w, Tokens(u, true, text))
  {
    TokensCover(u, true, text);
    EmptyFront(w.word, Tokens(u, true, text));
  }

  lemma WordEnd(u: Tables, w: Wrap)
    requires WordSoFar(u, w, [])
    ensures Exact(u, false, w.word)
  {
    EmptyBack(w.word, []);
    NewlinesIrrelevant(u, w.word);
  }

  lemma WordStep(u: Tables, w: Wrap, t: Token, rest: seq<Token>)
    requires WordSoFar(u, w, [t] + rest)
    ensures Exact(u, false, w.word)
    ensures WordSoFar(u, StepWord(w, t), rest)
  {
    hide PlaceWord, FlushSpace, Next;
    ExactPrefix(u, true, w.word, [t] + rest);
    NewlinesIrrelevant(u, w.word);
    ExactSuffix(u, true, w.word, [t] + rest);
    ExactSuffix(u, true, [t], rest);
    EmptyFront([], rest);
    Assoc(w.word, [t], rest);
  }

  lemma PreserveNext(u: Tables, text: Text, i: nat, w: Wrap) returns (t: Token)
    requires i < |text|
    ensures IsTokenAt(u, text, i, t) && i + |t.bytes| <= |text| && t.bytes != []
    ensures PlaceTokens(w, TokensFrom(u, text, i)) == PlaceTokens(PlaceToken(w, t), TokensFrom(u, text, i + |t.bytes|))
  {
    hide IsTokenAt, TokensFrom;
    t := TextStep(u, text, i);
    PlaceFirst(w, t, TokensFrom(u, text, i + |t.bytes|));
  }

  lemma WordsNext(u: Tables, text: Text, i: nat, w: Wrap) returns (t: Token)
    requires i < |text| && WordSoFar(u, w, TokensFrom(u, text, i))
    ensures IsTokenAt(u, text, i, t) && i + |t.bytes| <= |text| && t.bytes != []
    ensures Exact(u, false, w.word)
    ensures StepWords(w, TokensFrom(u, text, i)) == StepWords(StepWord(w, t), TokensFrom(u, text, i + |t.bytes|))
    ensures WordSoFar(u, StepWord(w, t), TokensFrom(u, text, i + |t.bytes|))
  {
    hide IsTokenAt, TokensFrom, WordSoFar, Exact, StepWord;
    t := TextStep(u, text, i);
    var rest := TokensFrom(u, text, i + |t.bytes|);
    WordStep(u, w, t, rest);
    StepFirst(w, t, rest);
  }
}
