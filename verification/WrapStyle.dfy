/**
 Styles across line breaks: drawing every output line on a terminal that has just been
 reset shows each cluster as the unwrapped text would have shown it.
 */
module WrapStyle {
  import opened Seqs
  import opened Scanner
  import opened Locality
  import opened Sgr
  import opened WrapModel

  /** All cells of the lines, each line drawn from a plain terminal. */
  function Drawn(lines: seq<Line>): seq<Cell> {
    if lines == [] then [] else Drawn(lines[..|lines| - 1]) + Cells(PLAIN, LineTokens(lines[|lines| - 1]))
  }

  function DrawnSoFar(w: Wrap): seq<Cell> {
    Drawn(w.lines) + Cells(PLAIN, w.open + w.body)
  }

  /** The terminal and the wrapper's memory are both in style st. */
  ghost predicate InStyle(w: Wrap, st: Style) {
    && Replays(w.active, st)
    && StyleAfter(PLAIN, w.open + w.body) == st
  }

  lemma CloseDraws(w: Wrap, final: bool)
    ensures Cells(PLAIN, LineTokens(CurrentLine(w, final))) == Cells(PLAIN, w.open + w.body)
  {
    var close := CurrentLine(w, final).close;
    CellsAppend(PLAIN, w.open + w.body, close);
    NoCells(StyleAfter(PLAIN, w.open + w.body), close);
    EmptyBack(Cells(PLAIN, w.open + w.body), []);
  }

  lemma PushDrawn(w: Wrap, final: bool)
    ensures Drawn(w.lines + [CurrentLine(w, final)]) == DrawnSoFar(w)
  {
    var lines := w.lines + [CurrentLine(w, final)];
    assert lines[..|lines| - 1] == w.lines;
    CloseDraws(w, final);
  }

  /** A line break draws nothing and leaves the style as it was. */
  lemma PushLineStyle(w: Wrap, hard: bool, st: Style)
    requires InStyle(w, st)
    ensures InStyle(PushLine(w, false, hard), st)
    ensures DrawnSoFar(PushLine(w, false, hard)) == DrawnSoFar(w)
  {
    hide Cells, LineTokens, CurrentLine;
    PushDrawn(w, false);
    var open := Opening(w.active);
    EmptyBack(open, []);
    ReplayStyle(w.active, st);
    OpeningDraws(w.active, st);
    EmptyBack(DrawnSoFar(w), []);
  }

  lemma OpeningDraws(a: Active, st: Style)
    requires Replays(a, st)
    ensures Cells(PLAIN, Opening(a)) == []
  {
    NoCells(PLAIN, Opening(a));
  }

  lemma AddStyle(w: Wrap, piece: seq<Token>, width: nat, st: Style)
    requires InStyle(w, st)
    ensures var w2 := Add(w, piece, width);
            && StyleAfter(PLAIN, w2.open + w2.body) == StyleAfter(st, piece)
            && DrawnSoFar(w2) == DrawnSoFar(w) + Cells(st, piece)
            && w2.active == w.active
  {
    Assoc(w.open, w.body, piece);
    StyleAppend(PLAIN, w.open + w.body, piece);
    CellsAppend(PLAIN, w.open + w.body, piece);
    Assoc(Drawn(w.lines), Cells(PLAIN, w.open + w.body), Cells(st, piece));
  }

  lemma AppendPieceStyle(w: Wrap, piece: seq<Token>, width: nat, st: Style)
    requires InStyle(w, st)
    ensures var w2 := AppendPiece(w, piece, width);
            && StyleAfter(PLAIN, w2.open + w2.body) == StyleAfter(st, piece)
            && DrawnSoFar(w2) == DrawnSoFar(w) + Cells(st, piece)
            && w2.active == w.active
  {
    hide Cells, StyleAfter, Drawn, CurrentLine, Replays;
    if width > 0 && Overflows(w, width) {
      PushLineStyle(w, false, st);
      AddStyle(SoftBreak(w), piece, width, st);
    } else {
      AddStyle(w, piece, width, st);
    }
  }

  lemma OneCell(st: Style, t: Token)
    ensures Cells(st, [t]) == if t.Glyph? then [Cell(t.bytes, t.width, st)] else []
  {
    assert [t][1..] == [];
  }

  lemma PlaceTokenStyle(w: Wrap, t: Token, st: Style)
    requires InStyle(w, st) && (t.Escape? ==> Faithful(t.bytes))
    ensures InStyle(PlaceToken(w, t), StyleAfter(st, [t]))
    ensures DrawnSoFar(PlaceToken(w, t)) == DrawnSoFar(w) + Cells(st, [t])
  {
    hide Cells, Drawn, CurrentLine, Replays, Apply, Remember, Faithful;
    StyleOne(st, t);
    match t
    case Escape(e) =>
      AddStyle(w, [t], 0, st);
      ReplayStep(w.active, st, e);
    case Newline(_) =>
      PushLineStyle(w, true, st);
      OneCell(st, t);
      EmptyBack(DrawnSoFar(w), Cells(st, [t]));
    case Glyph(_, width) =>
      AppendPieceStyle(w, [t], width, st);
  }

  lemma {:induction false} PlaceTokensStyle(w: Wrap, ts: seq<Token>, st: Style)
    requires InStyle(w, st) && AllFaithful(ts)
    ensures InStyle(PlaceTokens(w, ts), StyleAfter(st, ts))
    ensures DrawnSoFar(PlaceTokens(w, ts)) == DrawnSoFar(w) + Cells(st, ts)
    decreases |ts|
  {
    hide InStyle, Cells, Faithful, PlaceToken, Drawn, Apply;
    if ts == [] {
      NoCells(st, ts);
      EmptyBack(DrawnSoFar(w), Cells(st, ts));
    } else {
      assert ts[0] in ts;
      PlaceTokenStyle(w, ts[0], st);
      StyleOne(st, ts[0]);
      PlaceTokensStyle(PlaceToken(w, ts[0]), ts[1..], StyleAfter(st, [ts[0]]));
      assert ts == [ts[0]] + ts[1..];
      StyleAppend(st, [ts[0]], ts[1..]);
      CellsAppend(st, [ts[0]], ts[1..]);
      Assoc(DrawnSoFar(w), Cells(st, [ts[0]]), Cells(StyleAfter(st, [ts[0]]), ts[1..]));
    }
  }

  ghost predicate NonEmpty(ts: seq<Token>) {
    forall t :: t in ts ==> t.bytes != []
  }

  lemma FlatEmpty(ts: seq<Token>)
    requires NonEmpty(ts)
    ensures Flat(ts) == [] <==> ts == []
  {
    if ts != [] {
      FlatHead(ts);
      assert ts[0] in ts;
    }
  }

  ghost predicate MemoryNonEmpty(w: Wrap) {
    NonEmpty(w.open) && NonEmpty(w.body) && NonEmpty(w.active.sgr) && NonEmpty(w.active.link)
  }

  lemma FinishDrawn(w: Wrap)
    requires NonEmpty(w.open + w.body)
    ensures Drawn(Finish(w).lines) == DrawnSoFar(w)
  {
    PushDrawn(w, true);
    if Flat(w.open + w.body) == [] && w.lines != [] {
      FlatEmpty(w.open + w.body);
      EmptyBack(Drawn(w.lines), []);
    }
  }

  lemma InitStyle(target: nat)
    ensures InStyle(Init(target), PLAIN) && DrawnSoFar(Init(target)) == []
  {
  }
}
