/**
 Word mode as a plan: which runs of whitespace were written and which were dropped and why,
 and why every line was broken where it was.
 */
module WrapLayout {
  import opened Bytes
  import opened Seqs
  import opened Scanner
  import opened Locality
  import opened Glue
  import opened Sgr
  import opened WrapModel
  import opened WrapWidth
  import opened WrapWordsWidth
  import opened WrapTheorems

  // ---------------------------------------------------------------- the source

  /** A source in word mode: runs of whitespace as wide as they are laid out, tokens, and
      the ends of source lines. */
  datatype Mark = Run(k: nat) | Tok(t: Token) | Hard

  function AddMark(ms: seq<Mark>, t: Token): seq<Mark> {
    if t.Newline? then ms + [Hard]
    else if IsWhitespace(t) then
      var k := if t.width > 0 then t.width else 1;
      if ms != [] && ms[|ms| - 1].Run? then ms[..|ms| - 1] + [Run(ms[|ms| - 1].k + k)] else ms + [Run(k)]
    else ms + [Tok(t)]
  }

  function Marks(ts: seq<Token>): seq<Mark> {
    if ts == [] then [] else AddMark(Marks(ts[..|ts| - 1]), ts[|ts| - 1])
  }

  function Gap(k: nat): seq<Mark> {
    if k == 0 then [] else [Run(k)]
  }

  function Toks(ts: seq<Token>): (ms: seq<Mark>)
    ensures |ms| == |ts|
  {
    seq(|ts|, i requires 0 <= i < |ts| => Tok(ts[i]))
  }

  // ---------------------------------------------------------------- the plan

  /** What became of the run before a word: it was written as blanks, it was dropped on a
      continuation that shows nothing yet, or it was dropped at a break made for the word. */
  datatype Fate = Written | Hidden | Broken

  /** A word with the run before it, broken into pieces; or the end of a source line, with
      the run before it dropped. */
  datatype Entry = Placed(gap: nat, fate: Fate, pieces: seq<seq<Token>>) | Ended(gap: nat)

  function Concat(pieces: seq<seq<Token>>): seq<Token> {
    if pieces == [] then [] else Concat(pieces[..|pieces| - 1]) + pieces[|pieces| - 1]
  }

  function EntrySource(e: Entry): seq<Mark> {
    match e
    case Placed(gap, _, pieces) => Gap(gap) + Toks(Concat(pieces))
    case Ended(gap) => Gap(gap) + [Hard]
  }

  function Source(plan: seq<Entry>): seq<Mark> {
    if plan == [] then [] else Source(plan[..|plan| - 1]) + EntrySource(plan[|plan| - 1])
  }

  /** The bodies of the lines so far, and of the line that is being filled. */
  datatype Laid = Laid(body: seq<Token>, hard: bool)
  datatype Page = Page(lines: seq<Laid>, body: seq<Token>, hard: bool)

  const BLANK_PAGE := Page([], [], true)

  function NewLine(p: Page, hard: bool): Page {
    Page(p.lines + [Laid(p.body, p.hard)], [], hard)
  }

  /** The first piece continues the line, each other one starts a new line. */
  function DrawPieces(p: Page, pieces: seq<seq<Token>>): Page
    requires pieces != []
  {
    var n := |pieces| - 1;
    if n == 0 then p.(body := p.body + pieces[0])
    else NewLine(DrawPieces(p, pieces[..n]), false).(body := pieces[n])
  }

  function AfterGap(p: Page, gap: nat, fate: Fate): Page {
    match fate
    case Written => p.(body := p.body + Blanks(gap))
    case Hidden => p
    case Broken => NewLine(p, false)
  }

  predicate WellFormed(e: Entry) {
    e.Placed? ==> e.pieces != [] && Concat(e.pieces) != []
  }

  function DrawEntry(p: Page, e: Entry): Page
    requires WellFormed(e)
  {
    match e
    case Placed(gap, fate, pieces) => DrawPieces(AfterGap(p, gap, fate), pieces)
    case Ended(_) => NewLine(p, true)
  }

  predicate AllWellFormed(plan: seq<Entry>) {
    forall i :: 0 <= i < |plan| ==> WellFormed(plan[i])
  }

  function Draw(plan: seq<Entry>): Page
    requires AllWellFormed(plan)
  {
    if plan == [] then BLANK_PAGE else DrawEntry(Draw(plan[..|plan| - 1]), plan[|plan| - 1])
  }

  // ---------------------------------------------------------------- what makes a plan right

  /** A run before a word is written in full, unless the line is a continuation that shows
      nothing yet, or unless run and word together do not fit any more. */
  predicate GapRight(target: nat, p: Page, gap: nat, fate: Fate, width: nat) {
    match fate
    case Written =>
      gap > 0 ==> if Width(p.body) == 0 then p.hard else Width(p.body) + gap + width <= target
    case Hidden => gap > 0 && !p.hard && Width(p.body) == 0
    case Broken => gap > 0 && Width(p.body) > 0 && Width(p.body) + gap + width > target
  }

  /** What a line shows before the j-th piece is cut off from it. */
  function Before(p: Page, pieces: seq<seq<Token>>, j: nat): seq<Token>
    requires 0 < j < |pieces|
  {
    if j == 1 then p.body + pieces[0] else pieces[j - 1]
  }

  /** A break before the j-th piece is forced: the whole word would not fit on the line; or
      the word fits no line, and its next cluster would not fit on this one. */
  predicate CutRight(target: nat, p: Page, pieces: seq<seq<Token>>, j: nat, width: nat)
    requires 0 < j < |pieces|
  {
    var before := Width(Before(p, pieces, j));
    && before > 0 && pieces[j] != []
    && if width <= target then pieces == [[], pieces[1]] && before + width > target
       else TokenWidth(pieces[j][0]) > 0 && before + TokenWidth(pieces[j][0]) > target
  }

  ghost predicate CutsRight(target: nat, p: Page, pieces: seq<seq<Token>>, width: nat) {
    forall j :: 0 < j < |pieces| ==> CutRight(target, p, pieces, j, width)
  }

  ghost predicate EntryRight(target: nat, p: Page, e: Entry) {
    WellFormed(e) && (e.Placed? ==>
      var width := Width(Concat(e.pieces));
      && NoWhitespace(Concat(e.pieces)) && NoNewlines(Concat(e.pieces))
      && GapRight(target, p, e.gap, e.fate, width)
      && CutsRight(target, AfterGap(p, e.gap, e.fate), e.pieces, width))
  }

  ghost predicate PlanRight(target: nat, plan: seq<Entry>)
    requires AllWellFormed(plan)
  {
    forall i :: 0 <= i < |plan| ==> EntryRight(target, Draw(plan[..i]), plan[i])
  }

  /** Words are whole: between two of them is a run, or the end of a source line. */
  predicate Parted(plan: seq<Entry>) {
    forall i :: 0 < i < |plan| && plan[i].Placed? && plan[i].gap == 0 ==> plan[i - 1].Ended?
  }

  /** A word may come next without a run before it. */
  predicate AtLineStart(plan: seq<Entry>) {
    plan == [] || plan[|plan| - 1].Ended?
  }

  lemma PartedGrows(plan: seq<Entry>, e: Entry)
    requires Parted(plan) && (e.Placed? && e.gap == 0 ==> AtLineStart(plan))
    ensures Parted(plan + [e])
  {
    var more := plan + [e];
    forall i | 0 < i < |more| && more[i].Placed? && more[i].gap == 0
      ensures more[i - 1].Ended?
    {
      if i < |plan| {
        assert more[i] == plan[i] && more[i - 1] == plan[i - 1];
      }
    }
  }

  lemma PlanGrows(target: nat, plan: seq<Entry>, e: Entry)
    requires AllWellFormed(plan) && PlanRight(target, plan) && EntryRight(target, Draw(plan), e)
    ensures AllWellFormed(plan + [e]) && PlanRight(target, plan + [e])
    ensures Draw(plan + [e]) == DrawEntry(Draw(plan), e) && Source(plan + [e]) == Source(plan) + EntrySource(e)
  {
    hide EntryRight, EntrySource, DrawEntry;
    var more := plan + [e];
    assert more[..|plan|] == plan;
    assert WellFormed(e) by { RightIsWellFormed(target, Draw(plan), e); }
    forall i | 0 <= i < |more|
      ensures EntryRight(target, Draw(more[..i]), more[i])
    {
      assert more[..i] == plan[..i];
      if i == |plan| {
        assert plan[..i] == plan;
      }
    }
  }

  lemma RightIsWellFormed(target: nat, p: Page, e: Entry)
    requires EntryRight(target, p, e)
    ensures WellFormed(e)
  {
  }

  // ---------------------------------------------------------------- the wrapper's page

  function LaidOf(lines: seq<Line>): (ls: seq<Laid>)
    ensures |ls| == |lines|
  {
    seq(|lines|, i requires 0 <= i < |lines| => Laid(lines[i].body, lines[i].hard))
  }

  function PageOf(w: Wrap): Page {
    Page(LaidOf(w.lines), w.body, w.hard)
  }

  lemma PushLaid(w: Wrap, final: bool, hard: bool)
    ensures PageOf(PushLine(w, final, hard)) == NewLine(PageOf(w), hard)
  {
    var w2 := PushLine(w, final, hard);
    assert LaidOf(w2.lines) == LaidOf(w.lines) + [Laid(w.body, w.hard)];
  }

  lemma BreakLaid(w: Wrap)
    ensures PageOf(SoftBreak(w)) == NewLine(PageOf(w), false)
  {
    PushLaid(w, false, false);
  }

  /** A soft-wrapped line is known as such as long as it shows nothing. */
  predicate SoftLine(w: Wrap) {
    w.soft ==> !w.hard
  }

  // ---------------------------------------------------------------- runs

  function FateOf(w: Wrap): Fate {
    if !w.pending then Written
    else if w.lineWidth == 0 && w.soft then Hidden
    else if Overflows(w, SpaceWidth(w) + w.wordWidth) then Broken
    else Written
  }

  lemma GapLaid(w: Wrap)
    requires Fine(w) && SoftLine(w) && (w.pending <==> w.pendingWidth > 0)
    ensures PageOf(FlushSpace(w)) == AfterGap(PageOf(w), w.pendingWidth, FateOf(w))
    ensures GapRight(w.target, PageOf(w), w.pendingWidth, FateOf(w), w.wordWidth)
    ensures SoftLine(FlushSpace(w)) && !FlushSpace(w).pending && FlushSpace(w).pendingWidth == 0
  {
    hide WidthsAllowed, NoLead, CurrentLine;
    BreakLaid(w);
    EmptyBack(w.body, Blanks(0));
  }

  // ---------------------------------------------------------------- words

  lemma AddLaid(w: Wrap, piece: seq<Token>, width: nat)
    ensures PageOf(Add(w, piece, width)) == PageOf(w).(body := w.body + piece)
  {
  }

  lemma ConcatOne(piece: seq<Token>)
    ensures Concat([piece]) == piece
  {
    assert [piece][..0] == [];
    EmptyFront([], piece);
  }

  lemma ConcatMore(pieces: seq<seq<Token>>, piece: seq<Token>)
    ensures Concat(pieces + [piece]) == Concat(pieces) + piece
  {
    assert (pieces + [piece])[..|pieces|] == pieces;
  }

  /** A word that fits a line stays whole. */
  lemma WholeLaid(w: Wrap) returns (pieces: seq<seq<Token>>)
    requires Measured(w) && w.word != [] && w.wordWidth <= w.target
    ensures pieces != [] && Concat(pieces) == w.word
    ensures PageOf(AppendPiece(w, w.word, w.wordWidth)) == DrawPieces(PageOf(w), pieces)
    ensures CutsRight(w.target, PageOf(w), pieces, w.wordWidth)
  {
    hide CurrentLine, Concat, Opening;
    ConcatOne(w.word);
    if w.wordWidth > 0 && Overflows(w, w.wordWidth) {
      pieces := [[], w.word];
      ConcatOne([]);
      ConcatMore([[]], w.word);
      EmptyFront([], w.word);
      assert pieces == [[]] + [w.word];
      assert pieces[..1] == [[]];
      EmptyBack(w.body, []);
      BreakLaid(w);
      AddLaid(SoftBreak(w), w.word, w.wordWidth);
      forall j | 0 < j < |pieces|
        ensures CutRight(w.target, PageOf(w), pieces, j, w.wordWidth)
      {
        EmptyBack(w.body, pieces[0]);
      }
    } else {
      pieces := [w.word];
      AddLaid(w, w.word, w.wordWidth);
    }
  }

  /** Cuts of a word that fits no line. */
  predicate SplitAt(target: nat, before: nat, piece: seq<Token>) {
    before > 0 && piece != [] && TokenWidth(piece[0]) > 0 && before + TokenWidth(piece[0]) > target
  }

  ghost predicate Split(target: nat, p: Page, pieces: seq<seq<Token>>) {
    forall j :: 0 < j < |pieces| ==> SplitAt(target, Width(Before(p, pieces, j)), pieces[j])
  }

  /** The line that is being filled after the pieces. */
  lemma {:induction false} LastBody(p: Page, pieces: seq<seq<Token>>)
    requires pieces != []
    ensures DrawPieces(p, pieces).body ==
            if |pieces| == 1 then p.body + pieces[0] else pieces[|pieces| - 1]
  {
  }

  /** The pieces with one more token on the last one. */
  function Extended(pieces: seq<seq<Token>>, t: Token): (more: seq<seq<Token>>)
    requires pieces != []
    ensures |more| == |pieces| && more[..|pieces| - 1] == pieces[..|pieces| - 1]
    ensures more[|pieces| - 1] == pieces[|pieces| - 1] + [t]
  {
    pieces[..|pieces| - 1] + [pieces[|pieces| - 1] + [t]]
  }

  lemma ExtendedConcat(pieces: seq<seq<Token>>, t: Token)
    requires pieces != []
    ensures Concat(Extended(pieces, t)) == Concat(pieces) + [t]
  {
    hide Extended;
    var n := |pieces| - 1;
    Assoc(Concat(pieces[..n]), pieces[n], [t]);
  }

  lemma ExtendedDraws(p: Page, pieces: seq<seq<Token>>, t: Token)
    requires pieces != []
    ensures var d := DrawPieces(p, pieces); DrawPieces(p, Extended(pieces, t)) == d.(body := d.body + [t])
  {
    hide Extended;
    if |pieces| == 1 {
      Assoc(p.body, pieces[0], [t]);
    }
  }

  lemma SameBefore(p: Page, a: seq<seq<Token>>, b: seq<seq<Token>>, j: nat)
    requires 0 < j < |a| && j < |b| && a[..j] == b[..j]
    ensures Before(p, a, j) == Before(p, b, j)
  {
    assert a[..j][j - 1] == b[..j][j - 1];
    assert a[..j][0] == b[..j][0];
  }

  lemma ExtendedSplit(target: nat, p: Page, pieces: seq<seq<Token>>, t: Token)
    requires pieces != [] && Split(target, p, pieces)
    ensures Split(target, p, Extended(pieces, t))
  {
    hide Extended, Width, Before;
    var more := Extended(pieces, t);
    var n := |pieces| - 1;
    forall j | 0 < j < |more|
      ensures SplitAt(target, Width(Before(p, more, j)), more[j])
    {
      assert SplitAt(target, Width(Before(p, pieces, j)), pieces[j]);
      assert more[..n][..j] == more[..j] && pieces[..n][..j] == pieces[..j];
      SameBefore(p, more, pieces, j);
      if j < n {
        assert more[j] == more[..n][j] == pieces[j];
      }
    }
  }

  /** The pieces and one more, which holds a single token. */
  lemma CutConcat(pieces: seq<seq<Token>>, t: Token)
    ensures Concat(pieces + [[t]]) == Concat(pieces) + [t]
  {
    ConcatMore(pieces, [t]);
  }

  lemma CutDraws(p: Page, pieces: seq<seq<Token>>, t: Token)
    requires pieces != []
    ensures DrawPieces(p, pieces + [[t]]) == NewLine(DrawPieces(p, pieces), false).(body := [t])
  {
    assert (pieces + [[t]])[..|pieces|] == pieces;
  }

  lemma CutSplit(target: nat, p: Page, pieces: seq<seq<Token>>, t: Token)
    requires pieces != [] && Split(target, p, pieces)
    requires SplitAt(target, Width(DrawPieces(p, pieces).body), [t])
    ensures Split(target, p, pieces + [[t]])
  {
    hide Width, Before, DrawPieces, SplitAt;
    var more, n := pieces + [[t]], |pieces|;
    forall j | 0 < j < |more|
      ensures SplitAt(target, Width(Before(p, more, j)), more[j])
    {
      if j < n {
        assert SplitAt(target, Width(Before(p, pieces, j)), pieces[j]);
        assert more[..j] == pieces[..j];
        SameBefore(p, more, pieces, j);
      } else {
        BeforeCut(p, pieces, [t]);
      }
    }
  }

  lemma BeforeCut(p: Page, pieces: seq<seq<Token>>, piece: seq<Token>)
    requires pieces != []
    ensures Before(p, pieces + [piece], |pieces|) == DrawPieces(p, pieces).body
  {
    LastBody(p, pieces);
  }

  lemma TokenLaid(w: Wrap, t: Token)
    requires Measured(w) && !t.Newline?
    ensures var w2 := PlaceToken(w, t);
            var over := w.lineWidth > 0 && TokenWidth(t) > 0 && w.lineWidth + TokenWidth(t) > w.target;
            PageOf(w2) == if over then NewLine(PageOf(w), false).(body := [t]) else PageOf(w).(body := w.body + [t])
  {
    hide CurrentLine, Remember, Opening;
    BreakLaid(w);
    EmptyFront([], [t]);
    if t.Glyph? {
      AddLaid(w, [t], t.width);
      AddLaid(SoftBreak(w), [t], t.width);
    } else {
      AddLaid(w, [t], 0);
    }
  }

  /** A word that fits no line, placed token by token. */
  lemma {:induction false} TokensLaid(w: Wrap, ts: seq<Token>) returns (pieces: seq<seq<Token>>)
    requires Measured(w) && NoNewlines(ts)
    ensures pieces != [] && Concat(pieces) == ts
    ensures PageOf(PlaceTokens(w, ts)) == DrawPieces(PageOf(w), pieces)
    ensures Split(w.target, PageOf(w), pieces)
    decreases |ts|
  {
    hide PlaceToken, Measured, Split, DrawPieces, Concat, PageOf, Extended;
    if ts == [] {
      pieces := [[]];
      ConcatOne([]);
      NothingLaid(w);
    } else {
      var n := |ts| - 1;
      var before, t := ts[..n], ts[n];
      assert ts == before + [t];
      assert t in ts;
      var ps := TokensLaid(w, before);
      var w1 := PlaceTokens(w, before);
      PlaceTokensMeasured(w, before);
      TargetKept(w, before);
      PlaceSnoc(w, before, t);
      TokenLaid(w1, t);
      LineWidthIs(w1);
      if w1.lineWidth > 0 && TokenWidth(t) > 0 && w1.lineWidth + TokenWidth(t) > w.target {
        CutConcat(ps, t);
        CutDraws(PageOf(w), ps, t);
        CutSplit(w.target, PageOf(w), ps, t);
        pieces := ps + [[t]];
      } else {
        ExtendedConcat(ps, t);
        ExtendedDraws(PageOf(w), ps, t);
        ExtendedSplit(w.target, PageOf(w), ps, t);
        pieces := Extended(ps, t);
      }
    }
  }

  lemma NothingLaid(w: Wrap)
    ensures PageOf(PlaceTokens(w, [])) == DrawPieces(PageOf(w), [[]]) && Split(w.target, PageOf(w), [[]])
  {
    EmptyBack(w.body, []);
  }

  lemma LineWidthIs(w: Wrap)
    requires Measured(w)
    ensures w.lineWidth == Width(PageOf(w).body) && PageOf(w).body == w.body
  {
  }

  lemma {:induction false} TargetKept(w: Wrap, ts: seq<Token>)
    ensures PlaceTokens(w, ts).target == w.target
    decreases |ts|
  {
    if ts != [] {
      TargetKept(PlaceToken(w, ts[0]), ts[1..]);
    }
  }

  lemma {:induction false} PlaceSnoc(w: Wrap, ts: seq<Token>, t: Token)
    ensures PlaceTokens(w, ts + [t]) == PlaceToken(PlaceTokens(w, ts), t)
    decreases |ts|
  {
    hide PlaceToken;
    if ts == [] {
      EmptyFront(ts, [t]);
      assert [t][1..] == [];
    } else {
      ConsAppend(ts, [t]);
      PlaceSnoc(PlaceToken(w, ts[0]), ts[1..], t);
    }
  }

  lemma WideIsRight(target: nat, p: Page, pieces: seq<seq<Token>>, width: nat)
    requires Split(target, p, pieces) && width > target
    ensures CutsRight(target, p, pieces, width)
  {
    forall j | 0 < j < |pieces|
      ensures CutRight(target, p, pieces, j, width)
    {
      assert SplitAt(target, Width(Before(p, pieces, j)), pieces[j]);
    }
  }

  lemma WordLaid(w: Wrap) returns (pieces: seq<seq<Token>>)
    requires Measured(w) && w.word != []
    ensures pieces != [] && Concat(pieces) == w.word
    ensures PageOf(PlaceWord(w)) == DrawPieces(PageOf(w), pieces)
    ensures CutsRight(w.target, PageOf(w), pieces, w.wordWidth)
  {
    hide DrawPieces, Concat, CutsRight, AppendPiece, RememberText, Split;
    if w.wordWidth <= w.target {
      pieces := WholeLaid(w);
    } else {
      pieces := TokensLaid(w, w.word);
      WideIsRight(w.target, PageOf(w), pieces, w.wordWidth);
    }
  }

  // ---------------------------------------------------------------- one source token

  ghost predicate NoRunLast(ms: seq<Mark>) {
    ms != [] ==> !ms[|ms| - 1].Run?
  }

  /** The plan stands for everything that was placed; the run and the word after it are
      still to come. */
  ghost predicate Laying(w: Wrap, plan: seq<Entry>, done: seq<Token>) {
    && Fine(w) && SoftLine(w) && (w.pending <==> w.pendingWidth > 0) && NoWhitespace(w.word)
    && AllWellFormed(plan) && PlanRight(w.target, plan) && Parted(plan) && Draw(plan) == PageOf(w)
    && NoRunLast(Source(plan))
    && Marks(done) == Source(plan) + Gap(w.pendingWidth) + Toks(w.word)
  }

  /** Between source tokens: what is placed ended with a whole word. */
  ghost predicate BetweenTokens(w: Wrap, plan: seq<Entry>, done: seq<Token>) {
    Laying(w, plan, done) && (w.pending || AtLineStart(plan))
  }

  lemma PlacedRight(w: Wrap) returns (e: Entry)
    requires Fine(w) && SoftLine(w) && (w.pending <==> w.pendingWidth > 0) && NoWhitespace(w.word) && w.word != []
    ensures EntryRight(w.target, PageOf(w), e) && DrawEntry(PageOf(w), e) == PageOf(FlushWord(w))
    ensures EntrySource(e) == Gap(w.pendingWidth) + Toks(w.word) && e.Placed? && e.gap == w.pendingWidth
  {
    hide FlushSpace, PlaceWord, DrawPieces, Concat, CutsRight, GapRight, WidthsAllowed, Led, AfterGap, Toks;
    var w1 := FlushSpace(w);
    GapLaid(w);
    FlushSpaceFine(w);
    SpaceKeepsWidth(w);
    var pieces := WordLaid(w1);
    e := Placed(w.pendingWidth, FateOf(w), pieces);
  }

  lemma SpaceKeepsWidth(w: Wrap)
    ensures FlushSpace(w).wordWidth == w.wordWidth && FlushSpace(w).target == w.target && FlushSpace(w).word == w.word
  {
  }

  lemma {:induction false} PlacedSoft(w: Wrap, ts: seq<Token>)
    requires SoftLine(w) && NoNewlines(ts)
    ensures var w2 := PlaceTokens(w, ts);
            SoftLine(w2) && w2.pending == w.pending && w2.pendingWidth == w.pendingWidth
    decreases |ts|
  {
    hide CurrentLine, Remember, Overflows;
    if ts != [] {
      assert ts[0] in ts;
      PlacedSoft(PlaceToken(w, ts[0]), ts[1..]);
    }
  }

  lemma FlushedSoft(w: Wrap)
    requires Fine(w) && SoftLine(w) && (w.pending <==> w.pendingWidth > 0) && w.word != []
    ensures var f := FlushWord(w); SoftLine(f) && !f.pending && f.pendingWidth == 0 && f.word == []
  {
    hide FlushSpace, CurrentLine, RememberText, WidthsAllowed, Led, Overflows;
    GapLaid(w);
    SpaceKeepsWidth(w);
    var w1 := FlushSpace(w);
    PlacedSoft(w1, w1.word);
  }

  lemma TailIsTok(a: seq<Mark>, word: seq<Token>)
    requires word != []
    ensures NoRunLast(a + Toks(word))
  {
  }

  lemma FlushLaying(w: Wrap, plan: seq<Entry>, done: seq<Token>) returns (plan2: seq<Entry>)
    requires BetweenTokens(w, plan, done)
    ensures Laying(FlushWord(w), plan2, done) && FlushWord(w).word == []
  {
    hide PlanRight, EntryRight, Draw, Source, Marks, FlushWord, Fine, EntrySource, DrawEntry, Toks, Parted,
      AtLineStart;
    if w.word == [] {
      plan2 := plan;
      NothingFlushed(w);
    } else {
      var e := PlacedRight(w);
      PlanGrows(w.target, plan, e);
      PartedGrows(plan, e);
      plan2 := plan + [e];
      FlushWordFine(w);
      FlushedSoft(w);
      Assoc(Source(plan), Gap(w.pendingWidth), Toks(w.word));
      TailIsTok(Source(plan) + Gap(w.pendingWidth), w.word);
      NoToks();
      EmptyBack(Source(plan2), []);
      EmptyBack(Source(plan2), Gap(0));
    }
  }

  lemma NoToks()
    ensures Toks([]) == [] && Gap(0) == []
  {
  }

  lemma NothingFlushed(w: Wrap)
    requires w.word == []
    ensures FlushWord(w) == w
  {
  }

  lemma NewlineLaying(f: Wrap, plan: seq<Entry>, done: seq<Token>, t: Token) returns (plan2: seq<Entry>)
    requires Laying(f, plan, done) && f.word == [] && t.Newline?
    ensures BetweenTokens(PushLine(f, false, true).(lineWidth := 0, pending := false, pendingWidth := 0, soft := false),
                          plan2, done + [t])
  {
    hide PlanRight, Draw, Source, Marks, Fine, CurrentLine, Parted;
    var e := Ended(f.pendingWidth);
    PlanGrows(f.target, plan, e);
    PartedGrows(plan, e);
    plan2 := plan + [e];
    NewlineFine(f);
    PushLaid(f, false, true);
    MarksSnoc(done, t);
    NoToks();
    EmptyBack(Source(plan) + Gap(f.pendingWidth), []);
    Assoc(Source(plan), Gap(f.pendingWidth), [Hard]);
    EmptyBack(Source(plan2), []);
  }

  lemma MarksSnoc(ts: seq<Token>, t: Token)
    ensures Marks(ts + [t]) == AddMark(Marks(ts), t)
  {
    assert (ts + [t])[..|ts|] == ts;
  }

  lemma WhitespaceLaying(f: Wrap, plan: seq<Entry>, done: seq<Token>, t: Token)
    requires Laying(f, plan, done) && f.word == [] && IsWhitespace(t)
    ensures BetweenTokens(f.(pending := true, pendingWidth := f.pendingWidth + (if t.width > 0 then t.width else 1)),
                          plan, done + [t])
  {
    hide Parted, PlanRight, Draw, Source, Marks, WidthsAllowed, AddMark, NoRunLast, Led, Gap, Toks;
    MarksSnoc(done, t);
    NoToks();
    var k := if t.width > 0 then t.width else 1;
    EmptyBack(Source(plan) + Gap(f.pendingWidth), []);
    EmptyBack(Source(plan) + Gap(f.pendingWidth + k), []);
    RunWidens(Source(plan), f.pendingWidth, t);
    FineElsewhere(f, f.pendingWidth + k);
  }

  lemma RunWidens(ms: seq<Mark>, k: nat, t: Token)
    requires NoRunLast(ms) && IsWhitespace(t)
    ensures AddMark(ms + Gap(k), t) == ms + Gap(k + if t.width > 0 then t.width else 1)
  {
    EmptyBack(ms, []);
    if k > 0 {
      assert (ms + Gap(k))[..|ms|] == ms;
    }
  }

  lemma FineElsewhere(f: Wrap, k: nat)
    requires Fine(f)
    ensures Fine(f.(pending := true, pendingWidth := k))
  {
  }

  lemma TokenLaying(w: Wrap, plan: seq<Entry>, done: seq<Token>, t: Token)
    requires BetweenTokens(w, plan, done) && !IsWhitespace(t) && !t.Newline?
    ensures BetweenTokens(StepWord(w, t), plan, done + [t])
  {
    hide Parted, PlanRight, Draw, Source, Marks, Fine;
    MarksSnoc(done, t);
    StepWordFine(w, t);
    assert Toks(w.word + [t]) == Toks(w.word) + [Tok(t)];
    Assoc(Source(plan) + Gap(w.pendingWidth), Toks(w.word), [Tok(t)]);
  }

  lemma StepLaying(w: Wrap, plan: seq<Entry>, done: seq<Token>, t: Token) returns (plan2: seq<Entry>)
    requires BetweenTokens(w, plan, done)
    ensures BetweenTokens(StepWord(w, t), plan2, done + [t])
  {
    hide BetweenTokens, Laying, FlushWord;
    if t.Newline? || IsWhitespace(t) {
      var p := FlushLaying(w, plan, done);
      if t.Newline? {
        plan2 := NewlineLaying(FlushWord(w), p, done, t);
      } else {
        WhitespaceLaying(FlushWord(w), p, done, t);
        plan2 := p;
      }
    } else {
      TokenLaying(w, plan, done, t);
      plan2 := plan;
    }
  }

  lemma {:induction false} StepsLaying(w: Wrap, plan: seq<Entry>, done: seq<Token>, ts: seq<Token>)
    returns (plan2: seq<Entry>)
    requires BetweenTokens(w, plan, done)
    ensures BetweenTokens(StepWords(w, ts), plan2, done + ts)
    decreases |ts|
  {
    hide Laying, BetweenTokens, StepWord;
    if ts == [] {
      plan2 := plan;
      EmptyBack(done, ts);
    } else {
      var p := StepLaying(w, plan, done, ts[0]);
      plan2 := StepsLaying(StepWord(w, ts[0]), p, done + [ts[0]], ts[1..]);
      assert done + [ts[0]] + ts[1..] == done + ts;
    }
  }

  lemma NothingLaidYet(target: nat)
    ensures BetweenTokens(Init(target), [], [])
  {
    NoToks();
  }

  // ---------------------------------------------------------------- whole texts

  /** The lines are those of the page and the one being filled; that one is left out only if
      it is empty and not the only one, and shown empty only for what is replayed on it. */
  ghost predicate Shown(lines: seq<Line>, p: Page) {
    && lines != []
    && if LaidOf(lines) == p.lines then Flat(p.body) == []
       else LaidOf(lines) == p.lines + [Laid(p.body, p.hard)]
            && (Flat(p.body) == [] && p.lines != [] ==> Flat(lines[|lines| - 1].open) != [])
  }

  lemma FinishShown(w: Wrap)
    ensures Shown(Finish(w).lines, PageOf(w))
  {
    PushLaid(w, true, false);
    FlatAppend(w.open, w.body);
  }

  /** Word mode: there is a plan of whole words whose source is the text, with what is left of
      whitespace at its end, and whose page is the lines. By the plan, every run of whitespace
      between two words of one line is written in its full width; a run is dropped only at the
      end of a source line, at a soft break, or on a continuation that shows nothing yet; and
      every soft break is forced, since the line, the run and the next word do not fit
      together, or the next cluster of a word that fits no line does not. */
  lemma WordsLaidOut(u: Tables, text: Text, target: nat) returns (plan: seq<Entry>, tail: nat)
    ensures AllWellFormed(plan) && PlanRight(target, plan) && Parted(plan)
    ensures Marks(Tokens(u, true, text)) == Source(plan) + Gap(tail)
    ensures Shown(WrapText(u, text, target, false), Draw(plan))
  {
    hide PlanRight, Draw, Source, Marks, Fine, Shown, Tokens, FlushWord, Finish, AllWellFormed, Parted, AtLineStart;
    var ts := Tokens(u, true, text);
    NothingLaidYet(target);
    var p := StepsLaying(Init(target), [], [], ts);
    EmptyFront([], ts);
    var w := StepWords(Init(target), ts);
    plan := FlushLaying(w, p, ts);
    var f := FlushWord(w);
    tail := f.pendingWidth;
    NoToks();
    EmptyBack(Source(plan) + Gap(tail), []);
    FinishShown(f);
    StepsTarget(Init(target), ts);
    FlushTarget(w);
  }

  lemma {:induction false} StepsTarget(w: Wrap, ts: seq<Token>)
    ensures StepWords(w, ts).target == w.target
    decreases |ts|
  {
    hide FlushWord;
    if ts != [] {
      FlushTarget(w);
      StepsTarget(StepWord(w, ts[0]), ts[1..]);
    }
  }

  lemma FlushTarget(w: Wrap)
    ensures FlushWord(w).target == w.target
  {
    hide RememberText, Overflows;
    TargetKept(FlushSpace(w), w.word);
    SpaceKeepsWidth(w);
  }
}
