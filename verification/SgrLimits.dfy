/**
 Where the wrapper's reading of SGR parameters matters: it takes any zero parameter for a
 full reset, even a colour index. A sequence that survives line breaks in every text is
 exactly one whose zero parameters amount to a reset on one test style, FULL.
 */
module SgrLimits {
  import opened Bytes
  import opened Seqs
  import opened Scanner
  import opened Locality
  import opened Glue
  import opened Swallow
  import opened Sgr
  import opened SgrTracking
  import opened WrapModel
  import opened WrapExact
  import opened WrapWidth
  import opened WrapStyle
  import opened WrapWordsWidth
  import opened WrapWordsStyle
  import opened WrapTheorems

  /** Every attribute on, both colours set. */
  const FULL := Pen({Bold, Faint, Italic, Underlined, Double, Blink, Inverse, Conceal, Strike}, Indexed(1), Indexed(1))

  // ---------------------------------------------------------------- one test style decides

  /** q, which started as FULL, differs from p only where it is still as it started. */
  ghost predicate Follows(p: Pen, q: Pen) {
    && p.on <= q.on
    && (q.fg == p.fg || q.fg == Indexed(1))
    && (q.bg == p.bg || q.bg == Indexed(1))
  }

  lemma SetFollows(p: Pen, q: Pen, v: nat)
    requires Follows(p, q)
    ensures Follows(SetAttribute(p, v), SetAttribute(q, v))
  {
  }

  lemma ColorFollows(p: Pen, q: Pen, v: nat, c: Color)
    requires Follows(p, q)
    ensures Follows(SetColor(p, v, c), SetColor(q, v, c))
  {
  }

  lemma {:induction false} ApplyFollows(p: Pen, q: Pen, vs: seq<nat>)
    requires Follows(p, q)
    ensures Follows(ApplyValues(p, vs), ApplyValues(q, vs))
    decreases |vs|
  {
    hide Follows, SetAttribute, SetColor;
    if vs == [] || (|vs| == 1 && (vs[0] == 38 || vs[0] == 48)) {
    } else if vs[0] == 38 || vs[0] == 48 {
      if vs[1] == 5 && |vs| >= 3 {
        var c := Indexed(vs[2]);
        ColorFollows(p, q, vs[0], c);
        ApplyFollows(SetColor(p, vs[0], c), SetColor(q, vs[0], c), vs[3..]);
      } else if vs[1] == 2 && |vs| >= 5 {
        var c := Rgb(vs[2], vs[3], vs[4]);
        ColorFollows(p, q, vs[0], c);
        ApplyFollows(SetColor(p, vs[0], c), SetColor(q, vs[0], c), vs[5..]);
      } else if vs[1] != 5 && vs[1] != 2 {
        ApplyFollows(p, q, vs[2..]);
      }
    } else {
      SetFollows(p, q, vs[0]);
      ApplyFollows(SetAttribute(p, vs[0]), SetAttribute(q, vs[0]), vs[1..]);
    }
  }

  lemma AllOn(p: Pen)
    ensures p.on <= FULL.on
  {
    forall a | a in p.on
      ensures a in FULL.on
    {
      match a
      case Bold => case Faint => case Italic => case Underlined => case Double =>
      case Blink => case Inverse => case Conceal => case Strike =>
    }
  }

  /** A sequence is faithful if and only if, should the wrapper take it for a reset, it
      clears the style FULL. */
  lemma FaithfulTest(e: Text)
    ensures Faithful(e) <==> (Resets(e) ==> ApplyPen(FULL, e) == PLAIN_PEN)
  {
    if Resets(e) && ApplyPen(FULL, e) == PLAIN_PEN {
      forall p: Pen
        ensures ApplyPen(p, e) == PLAIN_PEN
      {
        if IsSgr(e) {
          assert Follows(p, FULL) by { AllOn(p); }
          ApplyFollows(p, FULL, Values(Fields([], Body(e))));
        }
      }
    }
  }

  // ---------------------------------------------------------------- a text that shows it

  /** The sequence with the single parameter ds. */
  function Single(ds: Text): Text {
    [ESC, '[' as int] + ds + ['m' as int]
  }

  predicate AllDigits(ds: Text) {
    forall k :: 0 <= k < |ds| ==> IsDigit(ds[k])
  }

  lemma {:induction false} DigitFields(cur: Text, ds: Text)
    requires AllDigits(ds)
    ensures Fields(cur, ds) == [cur + ds]
    decreases |ds|
  {
    if ds == [] {
      EmptyBack(cur, ds);
    } else {
      DigitFields(cur + [ds[0]], ds[1..]);
      assert cur + [ds[0]] + ds[1..] == cur + ds;
    }
  }

  lemma SingleApplies(ds: Text, v: nat, p: Pen)
    requires AllDigits(ds) && ds != [] && Value(ds) == v && v != 0 && v != 38 && v != 48
    ensures IsCsiM(Single(ds)) && !Resets(Single(ds))
    ensures ApplyPen(p, Single(ds)) == SetAttribute(p, v)
  {
    var e := Single(ds);
    assert Body(e) == ds;
    DigitFields([], ds);
    EmptyFront([], ds);
    assert Values([ds]) == [v];
    assert ZeroIn([ds]) == ZeroIn([ds][1..]);
    assert ApplyValues(p, [v]) == ApplyValues(SetAttribute(p, v), [v][1..]);
  }

  function Digit(d: nat): Byte
    requires d < 10
  {
    '0' as int + d
  }

  function Digits(v: nat): Text
    requires v < 100
  {
    if v < 10 then [Digit(v)] else [Digit(v / 10), Digit(v % 10)]
  }

  lemma DigitsValue(v: nat)
    requires v < 100
    ensures AllDigits(Digits(v)) && Digits(v) != [] && Value(Digits(v)) == v
  {
    var ds := Digits(v);
    if v < 10 {
      assert ds[..0] == [];
    } else {
      assert ds[..1] == [Digit(v / 10)];
      assert ds[..1][..0] == [];
      assert Value(ds[..1]) == v / 10;
    }
  }

  /** The parameter that switches on the k-th attribute of FULL. */
  function Code(k: nat): (v: nat)
    ensures 0 < v < 100 && v != 38 && v != 48
  {
    match k
    case 0 => 1
    case 1 => 2
    case 2 => 3
    case 3 => 4
    case 4 => 21
    case 5 => 5
    case 6 => 7
    case 7 => 8
    case 8 => 9
    case 9 => 31
    case _ => 41
  }

  function Rank(a: Attribute): nat {
    match a
    case Bold => 0
    case Faint => 1
    case Italic => 2
    case Underlined => 3
    case Double => 4
    case Blink => 5
    case Inverse => 6
    case Conceal => 7
    case Strike => 8
  }

  /** The first k settings of FULL. */
  function Partly(k: nat): Pen {
    Pen(set a | a in FULL.on && Rank(a) < k,
        if k > 9 then Indexed(1) else Default, if k > 10 then Indexed(1) else Default)
  }

  lemma PartlyEnds()
    ensures Partly(0) == PLAIN_PEN && Partly(11) == FULL
  {
    assert Partly(11).on == FULL.on;
  }

  lemma CodeSets(k: nat)
    requires k < 11
    ensures SetAttribute(Partly(k), Code(k)) == Partly(k + 1)
  {
    assert SetAttribute(Partly(k), Code(k)).on == Partly(k + 1).on;
  }

  function Prepare(k: nat): seq<Token> {
    if k == 0 then [] else Prepare(k - 1) + [Escape(Single(Digits(Code(k - 1))))]
  }

  lemma PrepareOne(w: Wrap, k: nat)
    requires k < 11 && InStyle(w, Style(Partly(k), NoLink))
    ensures var t := Escape(Single(Digits(Code(k))));
            && InStyle(PlaceToken(w, t), Style(Partly(k + 1), NoLink))
            && Faithful(t.bytes)
            && StyleAfter(Style(Partly(k), NoLink), [t]) == Style(Partly(k + 1), NoLink)
  {
    hide InStyle, ApplyPen, ApplyLink, SetAttribute, Partly, Digits, PlaceToken;
    var t := Escape(Single(Digits(Code(k))));
    DigitsValue(Code(k));
    SingleApplies(Digits(Code(k)), Code(k), Partly(k));
    CodeSets(k);
    CsiKeepsLink(NoLink, t.bytes);
    StyleOne(Style(Partly(k), NoLink), t);
    PlaceTokenStyle(w, t, Style(Partly(k), NoLink));
  }

  lemma {:induction false} PlaceAppend(w: Wrap, a: seq<Token>, b: seq<Token>)
    ensures PlaceTokens(w, a + b) == PlaceTokens(PlaceTokens(w, a), b)
    decreases |a|
  {
    hide PlaceToken;
    if a == [] {
      EmptyFront(a, b);
    } else {
      ConsAppend(a, b);
      PlaceAppend(PlaceToken(w, a[0]), a[1..], b);
    }
  }

  lemma PlaceOne(w: Wrap, t: Token)
    ensures PlaceTokens(w, [t]) == PlaceToken(w, t)
  {
    assert [t][1..] == [];
  }

  /** A run of escapes at the start of a line is remembered. */
  lemma {:induction false} PlacePrepared(k: nat, target: nat)
    requires k <= 11
    ensures var w := PlaceTokens(Init(target), Prepare(k));
            && InStyle(w, Style(Partly(k), NoLink)) && w.lineWidth == 0 && w.target == target && w.lines == []
    ensures StyleAfter(PLAIN, Prepare(k)) == Style(Partly(k), NoLink)
    ensures forall t :: t in Prepare(k) ==> t.Escape? && Faithful(t.bytes) && t.bytes != []
  {
    hide InStyle, Faithful, Digits, Apply;
    if k == 0 {
      InitIsInStyle(target);
      PartlyEnds();
    } else {
      PlacePrepared(k - 1, target);
      var w := PlaceTokens(Init(target), Prepare(k - 1));
      var t := Escape(Single(Digits(Code(k - 1))));
      PrepareOne(w, k - 1);
      PlaceAppend(Init(target), Prepare(k - 1), [t]);
      PlaceOne(w, t);
      StyleAppend(PLAIN, Prepare(k - 1), [t]);
    }
  }

  lemma InitIsInStyle(target: nat)
    ensures InStyle(Init(target), Style(Partly(0), NoLink))
  {
    InitStyle(target);
    PartlyEnds();
  }

  function Letter(b: Byte): Token {
    Glyph([b], 1)
  }

  const LETTER_A := Letter('a' as int)
  const LETTER_B := Letter('b' as int)

  /** FULL, then e, then two letters, to be wrapped at width one. */
  function Witness(e: Text): seq<Token> {
    Prepare(11) + [Escape(e)] + [LETTER_A] + [LETTER_B]
  }

  lemma WitnessTokens(e: Text, t: Token)
    requires t in Witness(e)
    ensures t in Prepare(11) || t == Escape(e) || t == LETTER_A || t == LETTER_B
  {
  }

  // ---------------------------------------------------------------- the witness is a text

  /** One escape sequence and nothing else. */
  predicate IsEscape(e: Text) {
    e != [] && e[0] == ESC && EscapeLen(e) == |e|
  }

  predicate PrintableStart(x: Text) {
    x == [] || 0x20 <= x[0] <= 0x7e
  }

  lemma LetterStops(u: Tables, b: Byte, x: Text)
    requires 0x20 <= b <= 0x7e && PrintableStart(x)
    ensures StopsBefore(u, true, Letter(b), x)
  {
    var s := [b] + x;
    assert s[1..] == x;
    assert s[..1] == [b];
  }

  lemma {:induction false} LettersExact(u: Tables, ts: seq<Token>)
    requires forall t :: t in ts ==> t.Glyph? && t.width == 1 && |t.bytes| == 1 && 0x20 <= t.bytes[0] <= 0x7e
    ensures Exact(u, true, ts) && PrintableStart(Flat(ts)) && (ts != [] ==> Flat(ts) != [])
    decreases |ts|
  {
    hide StopsBefore;
    if ts != [] {
      assert ts[0] in ts;
      assert ts[0] == Letter(ts[0].bytes[0]);
      LettersExact(u, ts[1..]);
      LetterStops(u, ts[0].bytes[0], Flat(ts[1..]));
    }
  }

  lemma SingleIsEscape(ds: Text)
    requires AllDigits(ds)
    ensures IsCsiM(Single(ds)) && IsEscape(Single(ds))
  {
    assert Single(ds)[2..] == ds + ['m' as int];
    CsiScan(ds + ['m' as int]);
  }

  lemma SequenceShut(u: Tables, e: Text)
    requires IsCsiM(e) && IsEscape(e)
    ensures Shut(u, Escape(e))
  {
    CsiShut(u, e);
  }

  lemma {:induction false} PreparedShut(u: Tables, k: nat)
    requires k <= 11
    ensures ShutEscapes(u, Prepare(k))
  {
    hide Shut, Digits, Single, IsCsiM, IsEscape;
    if k > 0 {
      PreparedShut(u, k - 1);
      DigitsValue(Code(k - 1));
      SingleIsEscape(Digits(Code(k - 1)));
      SequenceShut(u, Single(Digits(Code(k - 1))));
    }
  }

  /** The scanner reads the text of the witness as the witness. */
  lemma WitnessScans(u: Tables, e: Text)
    requires IsCsiM(e) && IsEscape(e)
    ensures Tokens(u, true, Flat(Witness(e))) == Witness(e)
  {
    hide Shut, Exact, Prepare;
    PreparedShut(u, 11);
    CsiShut(u, e);
    var letters := [LETTER_A] + [LETTER_B];
    LettersExact(u, letters);
    AfterEscapes(u, Prepare(11) + [Escape(e)], letters);
    Assoc(Prepare(11) + [Escape(e)], [LETTER_A], [LETTER_B]);
    ExactTokens(u, true, Witness(e));
  }

  /** After e the wrapper remembers nothing, and the second letter overflows. */
  lemma WitnessWraps(w: Wrap, e: Text)
    requires w.target == 1 && w.lineWidth == 0 && w.active.link == [] && IsCsiM(e) && Resets(e)
    ensures var w3 := PlaceToken(PlaceToken(PlaceToken(w, Escape(e)), LETTER_A), LETTER_B);
            && Finish(w3).lines != []
            && Finish(w3).lines[|Finish(w3).lines| - 1] == Line([], [LETTER_B], [], false)
  {
    hide Resets, CurrentLine;
    var w2 := PlaceToken(PlaceToken(w, Escape(e)), LETTER_A);
    assert w2.lineWidth == 1 && Opening(w2.active) == [];
    var w3 := PlaceToken(w2, LETTER_B);
    assert w3.open == [] && w3.body == [LETTER_B] && !w3.hard;
    assert w3.open + w3.body == [LETTER_B];
    FlatHead([LETTER_B]);
    LastLine(w3);
  }

  lemma LastLine(w: Wrap)
    ensures CurrentLine(w, true) == Line(w.open, w.body, [], w.hard)
  {
  }

  lemma LinkForgotten(w: Wrap, p: Pen)
    requires InStyle(w, Style(p, NoLink))
    ensures w.active.link == []
  {
  }

  lemma LastCell(st: Style, ts: seq<Token>)
    ensures var cs := Cells(st, ts + [LETTER_B]);
            cs != [] && cs[|cs| - 1] == Cell(LETTER_B.bytes, 1, StyleAfter(st, ts))
  {
    CellsAppend(st, ts, [LETTER_B]);
    OneCell(StyleAfter(st, ts), LETTER_B);
  }

  lemma LastDrawn(lines: seq<Line>)
    requires lines != [] && lines[|lines| - 1] == Line([], [LETTER_B], [], false)
    ensures Drawn(lines) != [] && Drawn(lines)[|Drawn(lines)| - 1] == Cell(LETTER_B.bytes, 1, PLAIN)
  {
    assert LineTokens(lines[|lines| - 1]) == [LETTER_B];
    OneCell(PLAIN, LETTER_B);
  }

  /** The witness placed token by token after its preparation. */
  lemma WitnessPlaced(e: Text)
    ensures PlaceTokens(Init(1), Witness(e)) ==
            PlaceToken(PlaceToken(PlaceToken(PlaceTokens(Init(1), Prepare(11)), Escape(e)), LETTER_A), LETTER_B)
  {
    hide PlaceToken, PlaceTokens, Prepare;
    var w, pre := PlaceTokens(Init(1), Prepare(11)), Prepare(11) + [Escape(e)];
    PlaceAppend(Init(1), Prepare(11), [Escape(e)]);
    PlaceAppend(Init(1), pre, [LETTER_A]);
    PlaceAppend(Init(1), pre + [LETTER_A], [LETTER_B]);
    PlaceOne(w, Escape(e));
    PlaceOne(PlaceToken(w, Escape(e)), LETTER_A);
    PlaceOne(PlaceToken(PlaceToken(w, Escape(e)), LETTER_A), LETTER_B);
  }

  lemma WitnessStyle(e: Text)
    requires IsCsiM(e)
    ensures StyleAfter(PLAIN, Prepare(11) + [Escape(e)] + [LETTER_A]) == Style(ApplyPen(FULL, e), NoLink)
  {
    hide StyleAfter, ApplyPen, ApplyLink, Prepare, Partly, InStyle, Faithful;
    PlacePrepared(11, 1);
    PartlyEnds();
    var pre := Prepare(11) + [Escape(e)];
    StyleAppend(PLAIN, Prepare(11), [Escape(e)]);
    StyleAppend(PLAIN, pre, [LETTER_A]);
    StyleOne(StyleAfter(PLAIN, pre), LETTER_A);
    StyleOne(Style(FULL, NoLink), Escape(e));
    CsiKeepsLink(NoLink, e);
  }

  /** The second letter is drawn in the plain style though the text gives it another. */
  lemma WitnessLastCells(e: Text)
    requires IsCsiM(e) && Resets(e)
    ensures var shown, cells := Drawn(WrapPreserve(1, Witness(e))), Cells(PLAIN, Witness(e));
            && shown != [] && shown[|shown| - 1] == Cell(LETTER_B.bytes, 1, PLAIN)
            && cells != [] && cells[|cells| - 1] == Cell(LETTER_B.bytes, 1, Style(ApplyPen(FULL, e), NoLink))
  {
    hide InStyle, Resets, ApplyPen, PlaceToken, PlaceTokens, Cells, Drawn, Finish, Prepare, StyleAfter, Partly,
      Faithful;
    PlacePrepared(11, 1);
    PartlyEnds();
    WitnessPlaced(e);
    var w := PlaceTokens(Init(1), Prepare(11));
    LinkForgotten(w, FULL);
    WitnessWraps(w, e);
    LastDrawn(WrapPreserve(1, Witness(e)));
    LastCell(PLAIN, Prepare(11) + [Escape(e)] + [LETTER_A]);
    WitnessStyle(e);
  }

  // ---------------------------------------------------------------- word mode

  lemma {:induction false} WordCollected(w: Wrap, ts: seq<Token>)
    requires NoWhitespace(ts) && NoNewlines(ts)
    ensures StepWords(w, ts) == w.(word := w.word + ts, wordWidth := w.wordWidth + Width(ts))
    decreases |ts|
  {
    if ts == [] {
      EmptyBack(w.word, ts);
    } else {
      assert ts[0] in ts;
      WordCollected(StepWord(w, ts[0]), ts[1..]);
      assert w.word + [ts[0]] + ts[1..] == w.word + ts;
    }
  }

  lemma TokenIgnoresWord(w: Wrap, word: seq<Token>, width: nat, t: Token)
    ensures PlaceToken(w.(word := word, wordWidth := width), t) ==
            PlaceToken(w, t).(word := word, wordWidth := width)
  {
    hide Remember, Closing, Overflows;
    assert Overflows(w.(word := word, wordWidth := width), TokenWidth(t)) == Overflows(w, TokenWidth(t)) by {
      OverflowIgnoresWord(w, word, width, TokenWidth(t));
    }
  }

  lemma OverflowIgnoresWord(w: Wrap, word: seq<Token>, width: nat, more: nat)
    ensures Overflows(w.(word := word, wordWidth := width), more) == Overflows(w, more)
  {
  }

  lemma {:induction false} WordIrrelevant(w: Wrap, word: seq<Token>, width: nat, ts: seq<Token>)
    ensures PlaceTokens(w.(word := word, wordWidth := width), ts) ==
            PlaceTokens(w, ts).(word := word, wordWidth := width)
    decreases |ts|
  {
    hide PlaceToken;
    if ts != [] {
      TokenIgnoresWord(w, word, width, ts[0]);
      WordIrrelevant(PlaceToken(w, ts[0]), word, width, ts[1..]);
    }
  }

  lemma {:induction false} PreparedWidth(k: nat)
    requires k <= 11
    ensures Width(Prepare(k)) == 0
  {
    hide Digits;
    if k > 0 {
      PreparedWidth(k - 1);
      WidthAppend(Prepare(k - 1), [Escape(Single(Digits(Code(k - 1))))]);
      OneToken(Escape(Single(Digits(Code(k - 1)))));
    }
  }

  lemma WitnessWord(e: Text)
    ensures NoWhitespace(Witness(e)) && NoNewlines(Witness(e)) && Width(Witness(e)) == 2
  {
    hide Prepare, Faithful;
    PlacePrepared(11, 1);
    forall t | t in Witness(e)
      ensures !IsWhitespace(t) && !t.Newline?
    {
      WitnessTokens(e, t);
    }
    PreparedWidth(11);
    WidthAppend(Prepare(11), [Escape(e)]);
    WidthAppend(Prepare(11) + [Escape(e)], [LETTER_A]);
    WidthAppend(Prepare(11) + [Escape(e)] + [LETTER_A], [LETTER_B]);
    OneToken(Escape(e));
    OneToken(LETTER_A);
    OneToken(LETTER_B);
  }

  /** A single word that is too wide for its line is broken as in preserve mode. */
  lemma WideWord(target: nat, ts: seq<Token>)
    requires NoWhitespace(ts) && NoNewlines(ts) && Width(ts) > target
    ensures WrapWords(target, ts) == WrapPreserve(target, ts)
  {
    hide PlaceTokens, CurrentLine;
    WordCollected(Init(target), ts);
    EmptyFront([], ts);
    WordIrrelevant(Init(target), ts, Width(ts), ts);
    WordIrrelevant(Init(target), [], 0, ts);
    var w := Init(target).(word := ts, wordWidth := Width(ts));
    assert FlushSpace(w) == w;
    assert FlushWord(w) == PlaceTokens(Init(target), ts);
  }

  // ---------------------------------------------------------------- both modes

  /** Every escape is e or faithful; and in word mode no cluster opens an escape. */
  ghost predicate Otherwise(ts: seq<Token>, e: Text, preserve: bool) {
    && (forall t :: t in ts && t.Escape? ==> t.bytes == e || Faithful(t.bytes))
    && (preserve || NoOpenEscape(ts))
  }

  /** e survives line breaks in every text whose other sequences are faithful. */
  ghost predicate Survives(u: Tables, e: Text, preserve: bool) {
    forall text: Text, target: nat :: Otherwise(Tokens(u, true, text), e, preserve) ==>
                                        KeepsStyle(u, text, target, preserve)
  }

  lemma WitnessAdmissible(e: Text, preserve: bool)
    ensures Otherwise(Witness(e), e, preserve)
  {
    hide Faithful, Prepare;
    PlacePrepared(11, 1);
    forall t | t in Witness(e)
      ensures (t.Escape? ==> t.bytes == e || Faithful(t.bytes)) && !OpensEscape(t)
    {
      WitnessTokens(e, t);
    }
  }

  /** In either mode the text of the witness shows another style than its lines. */
  lemma WitnessLosesStyle(u: Tables, e: Text, preserve: bool)
    requires TableFacts(u) && IsEscape(e) && Resets(e) && ApplyPen(FULL, e) != PLAIN_PEN
    ensures Otherwise(Tokens(u, true, Flat(Witness(e))), e, preserve)
    ensures !KeepsStyle(u, Flat(Witness(e)), 1, preserve)
  {
    hide TableFacts, Otherwise, Witness, WrapWords, WrapPreserve, Drawn, Cells, Visible, Drops, Spread, Screen, Texts,
      ApplyPen, Resets;
    ResetsIsCsi(e);
    WitnessScans(u, e);
    WitnessAdmissible(e, preserve);
    WitnessLastCells(e);
    WitnessWord(e);
    WideWord(1, Witness(e));
    var text := Flat(Witness(e));
    PreserveExact(u, 1, text);
    var lines := WrapPreserve(1, Witness(e));
    ScreenIsDrawn(u, lines);
    VisibleLast(Drawn(lines));
    VisibleLast(Cells(PLAIN, Witness(e)));
  }

  lemma FaithfulSurvives(u: Tables, e: Text, preserve: bool)
    requires TableFacts(u) && Faithful(e)
    ensures Survives(u, e, preserve)
  {
    hide TableFacts, Faithful, KeepsStyle, NoOpenEscape, Tokens;
    forall text: Text, target: nat | Otherwise(Tokens(u, true, text), e, preserve)
      ensures KeepsStyle(u, text, target, preserve)
    {
      StylesKept(u, text, target, preserve);
    }
  }

  /** The exact condition, in each mode: a sequence survives line breaks in every text whose
      other sequences are faithful if and only if, in case the wrapper takes it for a reset,
      it clears FULL. */
  lemma SurvivesIff(u: Tables, e: Text, preserve: bool)
    requires TableFacts(u) && IsEscape(e)
    ensures Survives(u, e, preserve) <==> (Resets(e) ==> ApplyPen(FULL, e) == PLAIN_PEN)
  {
    hide TableFacts, Resets, ApplyPen, Faithful, KeepsStyle, Otherwise, Tokens;
    FaithfulTest(e);
    if Faithful(e) {
      FaithfulSurvives(u, e, preserve);
    } else {
      WitnessLosesStyle(u, e, preserve);
    }
  }

  /** Palette colour zero as foreground. */
  const COLOUR_ZERO: Text := [ESC, '[' as int, '3' as int, '8' as int, ';' as int, '5' as int, ';' as int, '0' as int,
                              'm' as int]

  lemma ColourZeroFields()
    ensures IsCsiM(COLOUR_ZERO) && IsSgr(COLOUR_ZERO)
    ensures Fields([], Body(COLOUR_ZERO)) == [['3' as int, '8' as int], ['5' as int], ['0' as int]]
  {
    var b := Body(COLOUR_ZERO);
    assert b == ['3' as int, '8' as int, ';' as int, '5' as int, ';' as int, '0' as int];
    assert b[..2] == ['3' as int, '8' as int];
    FieldsDigits([], b, 2);
    var b2 := b[3..];
    assert b2 == ['5' as int, ';' as int, '0' as int];
    assert b2[..1] == ['5' as int];
    FieldsDigits([], b2, 1);
    var b3 := b2[2..];
    assert b3 == ['0' as int];
    assert b3[..1] == b3;
    FieldsDigits([], b3, 1);
    EmptyFront([], b[..2]);
    EmptyFront([], b2[..1]);
    EmptyFront([], b3);
  }

  lemma ColourZeroValues()
    ensures var fs := Fields([], Body(COLOUR_ZERO)); ZeroIn(fs) && Values(fs) == [38, 5, 0]
  {
    ColourZeroFields();
    var a, b, c := ['3' as int, '8' as int], ['5' as int], ['0' as int];
    assert a[..1] == ['3' as int] && a[..1][..0] == [] && b[..0] == [] && c[..0] == [];
    assert Value(a[..1]) == 3 && Value(a) == 38 && Value(b) == 5 && Value(c) == 0;
    assert Values([c]) == [0];
    assert [b, c][1..] == [c] && [a, b, c][1..] == [b, c];
    assert Values([b, c]) == [5, 0];
    assert ZeroIn([c]) && ZeroIn([b, c]);
  }

  /** 38;5;0 does not survive, in neither mode. */
  lemma ColourZeroLost(u: Tables, preserve: bool)
    requires TableFacts(u)
    ensures !Survives(u, COLOUR_ZERO, preserve)
  {
    hide TableFacts, Survives, Fields, ZeroIn;
    var e := COLOUR_ZERO;
    ColourZeroFields();
    ColourZeroValues();
    assert e[2..] == ['3' as int, '8' as int, ';' as int, '5' as int, ';' as int, '0' as int, 'm' as int];
    CsiScan(e[2..]);
    assert [38, 5, 0][3..] == [];
    assert ApplyPen(FULL, e) == FULL.(fg := Indexed(0));
    SurvivesIff(u, e, preserve);
  }

  lemma ResetsIsCsi(e: Text)
    requires Resets(e)
    ensures IsCsiM(e)
  {
  }
}
