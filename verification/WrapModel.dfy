/**
 The ANSI wrapper on tokens. An output line is kept in three parts, so that what the
 wrapper inserted can be told from what the text held: the sequences replayed at its
 start, the body, and the sequences that end it.
 */
module WrapModel {
  import opened Bytes
  import opened Scanner
  import opened Glue
  import opened Sgr

  /** `hard` says that the line starts where a source line starts. */
  datatype Line = Line(open: seq<Token>, body: seq<Token>, close: seq<Token>, hard: bool)

  function LineTokens(l: Line): seq<Token> {
    l.open + l.body + l.close
  }

  function LineText(l: Line): Text {
    Flat(LineTokens(l))
  }

  datatype Wrap = Wrap(
    target: nat,
    lines: seq<Line>,
    open: seq<Token>, body: seq<Token>, hard: bool, lineWidth: nat,
    word: seq<Token>, wordWidth: nat,
    pending: bool, pendingWidth: nat,
    soft: bool,
    active: Active)

  const UNDERLINE_OFF := Escape([ESC, '[' as int, '2' as int, '4' as int, 'm' as int])
  const CLOSE_BEL := Escape([ESC, ']' as int, '8' as int, ';' as int, ';' as int, BEL])
  const CLOSE_ST := Escape([ESC, ']' as int, '8' as int, ';' as int, ';' as int, ESC, '\\' as int])

  function Init(target: nat): Wrap {
    Wrap(target, [], [], [], true, 0, [], 0, false, 0, false, IDLE)
  }

  function Opening(a: Active): seq<Token> {
    a.sgr + a.link
  }

  function Closing(a: Active): (ts: seq<Token>)
    ensures forall t :: t in ts ==> t.Escape?
  {
    (if a.underline then [UNDERLINE_OFF] else []) +
    (if a.link == [] then [] else if a.terminator == BEL then [CLOSE_BEL] else [CLOSE_ST])
  }

  function CurrentLine(w: Wrap, final: bool): Line {
    Line(w.open, w.body, if final || Flat(w.open + w.body) == [] then [] else Closing(w.active), w.hard)
  }

  /** Ends the current line; the next one starts a source line or not. */
  function PushLine(w: Wrap, final: bool, hard: bool): Wrap {
    w.(lines := w.lines + [CurrentLine(w, final)],
       open := if final then [] else Opening(w.active),
       body := [],
       hard := hard)
  }

  function SoftBreak(w: Wrap): Wrap {
    PushLine(w, false, false).(lineWidth := 0, soft := true)
  }

  predicate Overflows(w: Wrap, width: nat) {
    w.lineWidth > 0 && w.lineWidth + width > w.target
  }

  function Add(w: Wrap, piece: seq<Token>, width: nat): Wrap {
    w.(body := w.body + piece, lineWidth := w.lineWidth + width, soft := if width == 0 then w.soft else false)
  }

  function AppendPiece(w: Wrap, piece: seq<Token>, width: nat): Wrap {
    if width > 0 && Overflows(w, width) then Add(SoftBreak(w), piece, width) else Add(w, piece, width)
  }

  // ---------------------------------------------------------------- preserve mode

  function PlaceToken(w: Wrap, t: Token): Wrap {
    match t
    case Escape(e) => Add(w, [t], 0).(active := Remember(w.active, e))
    case Newline(_) => PushLine(w, false, true).(lineWidth := 0)
    case Glyph(_, width) => AppendPiece(w, [t], width)
  }

  function PlaceTokens(w: Wrap, ts: seq<Token>): Wrap
    decreases |ts|
  {
    if ts == [] then w else PlaceTokens(PlaceToken(w, ts[0]), ts[1..])
  }

  /** The last line is pushed if it holds anything or is the only one. */
  function Finish(w: Wrap): Wrap {
    if Flat(w.open + w.body) != [] || w.lines == [] then PushLine(w, true, false) else w
  }

  function WrapPreserve(target: nat, ts: seq<Token>): seq<Line> {
    Finish(PlaceTokens(Init(target), ts)).lines
  }

  // ---------------------------------------------------------------- word mode

  function SpaceWidth(w: Wrap): nat {
    if w.pendingWidth > 0 then w.pendingWidth else 1
  }

  /** Decides what becomes of the whitespace before the word. */
  function FlushSpace(w: Wrap): Wrap {
    var placed :=
      if !w.pending || (w.lineWidth == 0 && w.soft) then w
      else if Overflows(w, SpaceWidth(w) + w.wordWidth) then SoftBreak(w)
      else w.(body := w.body + Blanks(SpaceWidth(w)), lineWidth := w.lineWidth + SpaceWidth(w));
    placed.(pending := false, pendingWidth := 0)
  }

  /** Remembers every escape byte by byte, without regard to clusters. */
  function RememberText(a: Active, text: Text): Active
    decreases |text|
  {
    if text == [] then a
    else if text[0] == ESC then
      var n := EscapeLen(text);
      RememberText(Remember(a, text[..n]), text[n..])
    else RememberText(a, text[1..])
  }

  function PlaceWord(w: Wrap): Wrap {
    if w.wordWidth <= w.target then
      var placed := AppendPiece(w, w.word, w.wordWidth);
      placed.(active := RememberText(placed.active, Flat(w.word)))
    else PlaceTokens(w, w.word)
  }

  function FlushWord(w: Wrap): Wrap {
    if w.word == [] then w else PlaceWord(FlushSpace(w)).(word := [], wordWidth := 0)
  }

  function StepWord(w: Wrap, t: Token): Wrap {
    if t.Escape? then w.(word := w.word + [t])
    else if t.Newline? then
      PushLine(FlushWord(w), false, true).(lineWidth := 0, pending := false, pendingWidth := 0, soft := false)
    else if IsWhitespace(t) then
      var flushed := FlushWord(w);
      flushed.(pending := true, pendingWidth := flushed.pendingWidth + (if t.width > 0 then t.width else 1))
    else w.(word := w.word + [t], wordWidth := w.wordWidth + t.width)
  }

  function StepWords(w: Wrap, ts: seq<Token>): Wrap
    decreases |ts|
  {
    if ts == [] then w else StepWords(StepWord(w, ts[0]), ts[1..])
  }

  function WrapWords(target: nat, ts: seq<Token>): seq<Line> {
    Finish(FlushWord(StepWords(Init(target), ts))).lines
  }
}
