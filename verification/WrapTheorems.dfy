/**
 The wrapper's guarantees, stated on the bytes that go in and the lines that come out.
 */
module WrapTheorems {
  import opened Bytes
  import opened Seqs
  import opened Scanner
  import opened Locality
  import opened Glue
  import opened Swallow
  import opened Sgr
  import opened WrapModel
  import opened WrapExact
  import opened WrapWidth
  import opened WrapStyle
  import opened WrapKept
  import opened WrapWordsExact
  import opened WrapWordsWidth
  import opened WrapWordsStyle

  /** The table of lines for a text, in either mode. */
  function WrapText(u: Tables, text: Text, target: nat, preserve: bool): seq<Line> {
    var ts := Tokens(u, true, text);
    if preserve then WrapPreserve(target, ts) else WrapWords(target, ts)
  }

  /** The cells of output lines, each scanned and drawn from a plain terminal. */
  function Screen(u: Tables, texts: seq<Text>): seq<Cell> {
    if texts == [] then []
    else Screen(u, texts[..|texts| - 1]) + Cells(PLAIN, Tokens(u, true, texts[|texts| - 1]))
  }

  function Texts(lines: seq<Line>): (texts: seq<Text>)
    ensures |texts| == |lines|
  {
    if lines == [] then [] else Texts(lines[..|lines| - 1]) + [LineText(lines[|lines| - 1])]
  }

  lemma {:induction false} ScreenIsDrawn(u: Tables, lines: seq<Line>)
    requires LinesExact(u, lines)
    ensures Screen(u, Texts(lines)) == Drawn(lines)
  {
    if lines != [] {
      var k := |lines| - 1;
      ScreenIsDrawn(u, lines[..k]);
      assert lines[k] in lines;
      ExactTokens(u, true, LineTokens(lines[k]));
      assert Texts(lines)[..k] == Texts(lines[..k]);
    }
  }

  /** A list without newline tokens scans the same for the width scanner. */
  lemma {:induction false} NewlinesIrrelevant(u: Tables, ts: seq<Token>)
    requires Exact(u, true, ts) && NoNewlines(ts)
    ensures Exact(u, false, ts)
  {
    if ts != [] {
      assert ts[0] in ts;
      NewlinesIrrelevant(u, ts[1..]);
    }
  }

  lemma LineMeasures(u: Tables, l: Line)
    requires Exact(u, true, LineTokens(l)) && Escapes(l.open) && Escapes(l.close) && NoNewlines(l.body)
    ensures VisibleWidth(u, LineText(l)) == Width(l.body)
  {
    NewlinesIrrelevant(u, LineTokens(l));
    ExactTokens(u, false, LineTokens(l));
    LineWidth(l);
  }

  lemma JoinedNonEmpty(u: Tables, w: Wrap)
    requires Exact(u, true, w.open + w.body)
    ensures NonEmpty(w.open + w.body)
  {
    ExactNonEmpty(u, true, w.open + w.body);
  }

  lemma PlacedExact(u: Tables, target: nat, text: Text)
    ensures var w := PlaceTokens(Init(target), Tokens(u, true, text));
            NonEmpty(w.open + w.body)
  {
    var ts := Tokens(u, true, text);
    TokensCover(u, true, text);
    var w := Init(target);
    EmptyFront(w.open + w.body, ts + []);
    EmptyBack(ts, []);
    PlaceTokensJoined(u, w, ts, []);
    var done := PlaceTokens(w, ts);
    EmptyBack(done.open + done.body, []);
    JoinedNonEmpty(u, done);
  }

  lemma FlushedNonEmpty(u: Tables, target: nat, text: Text)
    requires TableFacts(u)
    ensures var w := FlushWord(StepWords(Init(target), Tokens(u, true, text)));
            NonEmpty(w.open + w.body)
  {
    hide TableFacts;
    var ts := Tokens(u, true, text);
    TokensCover(u, true, text);
    EmptyFront(Init(target).word, ts);
    StepWordsReady(u, Init(target), ts);
    var w := StepWords(Init(target), ts);
    FlushWordReady(u, w, []);
    JoinedNonEmpty(u, FlushWord(w));
  }

  // ---------------------------------------------------------------- styles

  /** Preserve mode: drawn line by line from a reset terminal, every cluster has the
      attributes and the link it has in the text. */
  lemma PreserveKeepsStyle(u: Tables, text: Text, target: nat)
    requires AllFaithful(Tokens(u, true, text))
    ensures Screen(u, Texts(WrapText(u, text, target, true))) == Cells(PLAIN, Tokens(u, true, text))
  {
    hide AllFaithful, Cells, Exact;
    var ts := Tokens(u, true, text);
    PreserveExact(u, target, text);
    ScreenIsDrawn(u, WrapPreserve(target, ts));
    InitStyle(target);
    PlaceTokensStyle(Init(target), ts, PLAIN);
    PlacedExact(u, target, text);
    FinishDrawn(PlaceTokens(Init(target), ts));
    EmptyFront([], Cells(PLAIN, ts));
  }

  /** Word mode: the same, except that some whitespace is not drawn. */
  lemma WordsKeepStyle(u: Tables, text: Text, target: nat)
    requires TableFacts(u) && AllFaithful(Tokens(u, true, text)) && NoOpenEscape(Tokens(u, true, text))
    ensures var shown := Screen(u, Texts(WrapText(u, text, target, false)));
            var cells := Cells(PLAIN, Tokens(u, true, text));
            Drops(Spread(cells), shown) && Visible(shown) == Visible(cells)
  {
    hide AllFaithful, NoOpenEscape, Cells, Exact, TableFacts, Drops, Visible;
    var ts := Tokens(u, true, text);
    TokensCover(u, true, text);
    WordsExact(u, target, text);
    ScreenIsDrawn(u, WrapWords(target, ts));
    WordsDrawn(u, target, ts);
    FlushedNonEmpty(u, target, text);
    FinishDrawn(FlushWord(StepWords(Init(target), ts)));
    DropsVisible(Spread(Cells(PLAIN, ts)), Drawn(WrapWords(target, ts)));
    SpreadVisible(Cells(PLAIN, ts));
  }

  /** Both at once: what it means that wrapping a text in a mode keeps its styles. */
  ghost predicate KeepsStyle(u: Tables, text: Text, target: nat, preserve: bool) {
    var shown := Screen(u, Texts(WrapText(u, text, target, preserve)));
    var cells := Cells(PLAIN, Tokens(u, true, text));
    if preserve then shown == cells else Drops(Spread(cells), shown) && Visible(shown) == Visible(cells)
  }

  /** In preserve mode any cluster may swallow an ESC; in word mode none may end with one. */
  ghost predicate Keepable(ts: seq<Token>, preserve: bool) {
    AllFaithful(ts) && (preserve || NoOpenEscape(ts))
  }

  lemma StylesKept(u: Tables, text: Text, target: nat, preserve: bool)
    requires TableFacts(u) && Keepable(Tokens(u, true, text), preserve)
    ensures KeepsStyle(u, text, target, preserve)
  {
    hide TableFacts, AllFaithful, NoOpenEscape, Cells, Drops, Visible, Screen, Texts, WrapText;
    if preserve {
      PreserveKeepsStyle(u, text, target);
    } else {
      WordsKeepStyle(u, text, target);
    }
  }

  // ---------------------------------------------------------------- contents

  lemma LineParts(l: Line)
    ensures LineText(l) == Flat(l.open) + Flat(l.body) + Flat(l.close)
  {
    FlatAppend(l.open + l.body, l.close);
    FlatAppend(l.open, l.body);
  }

  /** Preserve mode: without the inserted sequences, the lines joined are the text
      without its hard newlines, byte for byte. */
  lemma PreserveKeepsText(u: Tables, text: Text, target: nat)
    ensures var lines := WrapText(u, text, target, true);
            && Held(lines) == WithoutNewlines(Tokens(u, true, text))
            && (forall l :: l in lines ==>
                  && LineText(l) == Flat(l.open) + Flat(l.body) + Flat(l.close)
                  && Escapes(l.open) && Escapes(l.close))
  {
    var ts := Tokens(u, true, text);
    PlaceTokensHeld(Init(target), ts);
    EmptyFront(HeldSoFar(Init(target)), WithoutNewlines(ts));
    PlacedExact(u, target, text);
    FinishHeld(PlaceTokens(Init(target), ts));
    PreserveWidths(target, ts);
    forall l | l in WrapPreserve(target, ts)
      ensures LineText(l) == Flat(l.open) + Flat(l.body) + Flat(l.close)
    {
      LineParts(l);
    }
  }

  /** Word mode: all escapes, and all clusters not starting with a space or a tab, are
      in the lines in the order of the text. */
  lemma WordsKeepTokens(u: Tables, text: Text, target: nat)
    requires TableFacts(u)
    ensures Kept(Held(WrapText(u, text, target, false))) == Kept(Tokens(u, true, text))
  {
    hide TableFacts, Kept, FlushWord;
    var ts := Tokens(u, true, text);
    var w := StepWords(Init(target), ts);
    StepWordsKept(Init(target), ts);
    FlushWordKept(w);
    NothingKept();
    assert HeldSoFar(Init(target)) == [];
    EmptyFront(Kept([]), Kept([]));
    EmptyFront(Kept(HeldSoFar(Init(target))) + Kept([]), Kept(ts));
    FlushedNonEmpty(u, target, text);
    FinishHeld(FlushWord(w));
  }

  // ---------------------------------------------------------------- widths

  /** Preserve mode: measured again, every line fits or holds exactly one cluster of
      positive width; and every soft break was forced. */
  lemma PreserveFits(u: Tables, text: Text, target: nat)
    ensures var lines := WrapText(u, text, target, true);
            && (forall l :: l in lines ==>
                  && VisibleWidth(u, LineText(l)) == Width(l.body)
                  && (Width(l.body) <= target || Count(l.body) == 1))
            && BreaksForced(target, lines)
  {
    hide BreaksForced;
    var ts := Tokens(u, true, text);
    PreserveWidths(target, ts);
    PreserveExact(u, target, text);
    forall l | l in WrapPreserve(target, ts)
      ensures VisibleWidth(u, LineText(l)) == Width(l.body)
      ensures Width(l.body) <= target || Count(l.body) == 1
    {
      LineMeasures(u, l);
      LineWidth(l);
    }
  }

  /** Word mode: measured again, every line fits, or is the leading whitespace of a source
      line, or a single cluster; and no soft-wrapped line starts with whitespace. */
  lemma WordsFit(u: Tables, text: Text, target: nat)
    requires TableFacts(u)
    ensures forall l :: l in WrapText(u, text, target, false) ==>
                          && VisibleWidth(u, LineText(l)) == Width(l.body)
                          && (Width(l.body) <= target || Count(l.body) == 1 || (l.hard && OnlyBlanks(l.body)))
                          && (!l.hard ==> NoLead(l.body))
  {
    hide TableFacts, OnlyBlanks, NoLead;
    var ts := Tokens(u, true, text);
    WordsWidths(target, ts);
    WordsExact(u, target, text);
    forall l | l in WrapWords(target, ts)
      ensures VisibleWidth(u, LineText(l)) == Width(l.body)
      ensures Width(l.body) <= target || Count(l.body) == 1 || (l.hard && OnlyBlanks(l.body))
    {
      LineMeasures(u, l);
      LineWidth(l);
    }
  }
}
