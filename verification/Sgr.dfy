/**
 Styles: what a terminal makes of SGR (ECMA-48 section 8.3.117) and OSC 8 sequences,
 and what the wrapper remembers of them in order to replay them on the next line.
 */
module Sgr {
  import opened Bytes
  import opened Scanner
  import opened Seqs

  // ---------------------------------------------------------------- the terminal

  datatype Color = Default | Indexed(n: nat) | Rgb(r: nat, g: nat, b: nat)

  datatype Attribute = Bold | Faint | Italic | Underlined | Double | Blink | Inverse | Conceal | Strike

  datatype Pen = Pen(on: set<Attribute>, fg: Color, bg: Color)

  datatype Link = NoLink | Link(params: Text, uri: Text)

  datatype Style = Style(pen: Pen, link: Link)

  const PLAIN_PEN := Pen({}, Default, Default)
  const PLAIN := Style(PLAIN_PEN, NoLink)

  predicate IsDigit(b: Byte) {
    '0' as int <= b <= '9' as int
  }

  /** Splits b at every byte that is not a digit; cur is the field being read. */
  function Fields(cur: Text, b: Text): (fs: seq<Text>)
    ensures fs != []
    decreases |b|
  {
    if b == [] then [cur]
    else if IsDigit(b[0]) then Fields(cur + [b[0]], b[1..])
    else [cur] + Fields([], b[1..])
  }

  /** The decimal value of a field of digits; an empty parameter means zero. */
  function Value(f: Text): nat {
    if f == [] then 0
    else Value(f[..|f| - 1]) * 10 + (if IsDigit(f[|f| - 1]) then f[|f| - 1] - '0' as int else 0)
  }

  function Values(fs: seq<Text>): (vs: seq<nat>)
    ensures |vs| == |fs|
  {
    if fs == [] then [] else [Value(fs[0])] + Values(fs[1..])
  }

  predicate IsCsiM(e: Text) {
    |e| >= 3 && e[0] == ESC && e[1] == '[' as int && e[|e| - 1] == 'm' as int
  }

  function Body(e: Text): Text
    requires IsCsiM(e)
  {
    e[2..|e| - 1]
  }

  /** SGR proper: nothing but digits and semicolons between the brackets. A sequence
      with private markers or sub-parameters is some other function. */
  predicate IsSgr(e: Text) {
    IsCsiM(e) && forall k :: 0 <= k < |Body(e)| ==> IsDigit(Body(e)[k]) || Body(e)[k] == ';' as int
  }

  function SetAttribute(p: Pen, v: nat): Pen {
    match v
    case 0 => PLAIN_PEN
    case 1 => p.(on := p.on + {Bold})
    case 2 => p.(on := p.on + {Faint})
    case 3 => p.(on := p.on + {Italic})
    case 4 => p.(on := p.on + {Underlined})
    case 5 => p.(on := p.on + {Blink})
    case 6 => p.(on := p.on + {Blink})
    case 7 => p.(on := p.on + {Inverse})
    case 8 => p.(on := p.on + {Conceal})
    case 9 => p.(on := p.on + {Strike})
    case 21 => p.(on := p.on + {Double})
    case 22 => p.(on := p.on - {Bold, Faint})
    case 23 => p.(on := p.on - {Italic})
    case 24 => p.(on := p.on - {Underlined, Double})
    case 25 => p.(on := p.on - {Blink})
    case 27 => p.(on := p.on - {Inverse})
    case 28 => p.(on := p.on - {Conceal})
    case 29 => p.(on := p.on - {Strike})
    case 39 => p.(fg := Default)
    case 49 => p.(bg := Default)
    case _ =>
      if 30 <= v <= 37 then p.(fg := Indexed(v - 30))
      else if 40 <= v <= 47 then p.(bg := Indexed(v - 40))
      else if 90 <= v <= 97 then p.(fg := Indexed(v - 82))
      else if 100 <= v <= 107 then p.(bg := Indexed(v - 92))
      else p
  }

  function SetColor(p: Pen, v: nat, c: Color): Pen {
    if v == 38 then p.(fg := c) else p.(bg := c)
  }

  /** Parameters left to right; 38 and 48 take a colour as 5;n or 2;r;g;b. */
  function ApplyValues(p: Pen, vs: seq<nat>): Pen
    decreases |vs|
  {
    if vs == [] then p
    else if vs[0] == 38 || vs[0] == 48 then
      if |vs| == 1 then p
      else if vs[1] == 5 then
        if |vs| < 3 then p else ApplyValues(SetColor(p, vs[0], Indexed(vs[2])), vs[3..])
      else if vs[1] == 2 then
        if |vs| < 5 then p else ApplyValues(SetColor(p, vs[0], Rgb(vs[2], vs[3], vs[4])), vs[5..])
      else ApplyValues(p, vs[2..])
    else ApplyValues(SetAttribute(p, vs[0]), vs[1..])
  }

  function ApplyPen(p: Pen, e: Text): Pen {
    if IsSgr(e) then ApplyValues(p, Values(Fields([], Body(e)))) else p
  }

  function IndexOf(s: Text, b: Byte): (k: nat)
    ensures k <= |s|
    ensures k < |s| ==> s[k] == b
    ensures forall j :: 0 <= j < k ==> s[j] != b
  {
    if s == [] || s[0] == b then 0 else 1 + IndexOf(s[1..], b)
  }

  predicate IsOsc8(e: Text) {
    |e| >= 5 && e[0] == ESC && e[1] == ']' as int && e[2] == '8' as int && e[3] == ';' as int
  }

  /** Where the text of a terminated OSC sequence ends. */
  function OscEnd(e: Text): (end: Option<nat>)
    requires |e| >= 5
    ensures end.Some? ==> end.value < |e|
  {
    if e[|e| - 1] == BEL then Some(|e| - 1)
    else if e[|e| - 2] == ESC && e[|e| - 1] == '\\' as int then Some(|e| - 2)
    else None
  }

  /** OSC 8 ; params ; uri opens a link, or closes it when the uri is empty. */
  function ApplyLink(l: Link, e: Text): Link {
    if !IsOsc8(e) || OscEnd(e).None? then l
    else
      var text := e[4..OscEnd(e).value];
      var k := IndexOf(text, ';' as int);
      if k == |text| then l
      else if k + 1 == |text| then NoLink
      else Link(text[..k], text[k + 1..])
  }

  function Apply(st: Style, e: Text): Style {
    Style(ApplyPen(st.pen, e), ApplyLink(st.link, e))
  }

  // ---------------------------------------------------------------- drawing

  datatype Cell = Cell(bytes: Text, width: nat, style: Style)

  function StyleAfter(st: Style, ts: seq<Token>): Style
    decreases |ts|
  {
    if ts == [] then st
    else StyleAfter(if ts[0].Escape? then Apply(st, ts[0].bytes) else st, ts[1..])
  }

  /** Every cluster with the style it is drawn in. */
  function Cells(st: Style, ts: seq<Token>): seq<Cell>
    decreases |ts|
  {
    if ts == [] then []
    else
      match ts[0]
      case Escape(e) => Cells(Apply(st, e), ts[1..])
      case Newline(_) => Cells(st, ts[1..])
      case Glyph(b, w) => [Cell(b, w, st)] + Cells(st, ts[1..])
  }

  lemma {:induction false} StyleAppend(st: Style, a: seq<Token>, b: seq<Token>)
    ensures StyleAfter(st, a + b) == StyleAfter(StyleAfter(st, a), b)
    decreases |a|
  {
    if a == [] {
      EmptyFront(a, b);
    } else {
      ConsAppend(a, b);
      StyleAppend(if a[0].Escape? then Apply(st, a[0].bytes) else st, a[1..], b);
    }
  }

  lemma {:induction false} CellsAppend(st: Style, a: seq<Token>, b: seq<Token>)
    ensures Cells(st, a + b) == Cells(st, a) + Cells(StyleAfter(st, a), b)
    decreases |a|
  {
    if a == [] {
      EmptyFront(a, b);
    } else {
      ConsAppend(a, b);
      CellsAppend(if a[0].Escape? then Apply(st, a[0].bytes) else st, a[1..], b);
    }
  }

  lemma {:induction false} NoCells(st: Style, ts: seq<Token>)
    requires forall t :: t in ts ==> !t.Glyph?
    ensures Cells(st, ts) == []
    decreases |ts|
  {
    if ts != [] {
      assert !ts[0].Glyph?;
      NoCells(if ts[0].Escape? then Apply(st, ts[0].bytes) else st, ts[1..]);
    }
  }

  // ---------------------------------------------------------------- the wrapper's memory

  predicate ZeroIn(fs: seq<Text>) {
    fs != [] && ((fs[0] != [] && Value(fs[0]) == 0) || ZeroIn(fs[1..]))
  }

  /** The wrapper takes any zero parameter for a full reset. */
  predicate Resets(e: Text) {
    IsCsiM(e) && (|e| == 3 || ZeroIn(Fields([], Body(e))))
  }

  function DigitsLen(b: Text): (n: nat)
    ensures n <= |b|
    ensures forall k :: 0 <= k < n ==> IsDigit(b[k])
    ensures n < |b| ==> !IsDigit(b[n])
  {
    if b == [] || !IsDigit(b[0]) then 0 else 1 + DigitsLen(b[1..])
  }

  function DropSemicolon(b: Text): (r: Text)
    ensures |r| <= |b|
  {
    if b != [] && b[0] == ';' as int then b[1..] else b
  }

  /** Skips up to k numeric colour components. */
  function SkipNumbers(b: Text, k: nat): (r: Text)
    ensures |r| <= |b|
    decreases k
  {
    if k == 0 || b == [] then b
    else
      var r := DropSemicolon(b);
      var n := DigitsLen(r);
      if n == 0 then r else SkipNumbers(r[n..], k - 1)
  }

  function ColorParts(mode: nat): nat {
    if mode == 5 then 1 else if mode == 2 then 3 else 0
  }

  /** Skips the colour that follows parameter 38 or 48. */
  function SkipColor(b: Text): (r: Text)
    ensures |r| <= |b|
  {
    var r := DropSemicolon(b);
    var n := DigitsLen(r);
    if n == 0 then r else SkipNumbers(r[n..], ColorParts(Value(r[..n])))
  }

  function UnderlineBy(on: bool, code: nat): bool {
    if code == 0 then false else if code == 4 then true else if code == 24 then false else on
  }

  /** The underline flag after the parameter bytes b. */
  function Underline(on: bool, b: Text): bool
    decreases |b|
  {
    if b == [] then on
    else if !IsDigit(b[0]) then Underline(on, b[1..])
    else
      var n := DigitsLen(b);
      var code := Value(b[..n]);
      if code == 38 || code == 48 then Underline(on, SkipColor(b[n..]))
      else Underline(UnderlineBy(on, code), b[n..])
  }

  /** What the wrapper carries over a line break: the SGR sequences since the last
      reset, the open hyperlink (at most one sequence), and what it needs to close
      underline and link at the end of a line. */
  datatype Active = Active(sgr: seq<Token>, underline: bool, link: seq<Token>, terminator: Byte)

  const IDLE := Active([], false, [], 0)

  /** How an escape changes the remembered link: not at all, or it closes or opens one. */
  datatype LinkChange = Untouched | Closed | Opened(terminator: Byte)

  function ReadLink(e: Text): LinkChange {
    if IsOsc8(e) && IndexOf(e[4..], ';' as int) < |e| - 4 && OscEnd(e).Some? then
      if OscEnd(e).value <= 4 + IndexOf(e[4..], ';' as int) + 1 then Closed
      else Opened(if e[|e| - 1] == BEL then BEL else '\\' as int)
    else Untouched
  }

  function Remember(a: Active, e: Text): Active {
    if IsCsiM(e) then
      if Resets(e) then a.(sgr := [], underline := false)
      else a.(sgr := a.sgr + [Escape(e)], underline := Underline(a.underline, Body(e)))
    else
      match ReadLink(e)
      case Untouched => a
      case Closed => a.(link := [], terminator := 0)
      case Opened(t) => a.(link := [Escape(e)], terminator := t)
  }

  function RememberAll(a: Active, ts: seq<Token>): Active
    decreases |ts|
  {
    if ts == [] then a
    else RememberAll(if ts[0].Escape? then Remember(a, ts[0].bytes) else a, ts[1..])
  }

  /** The wrapper's reading of e as a reset agrees with the terminal's. */
  ghost predicate Faithful(e: Text) {
    Resets(e) ==> forall p: Pen :: ApplyPen(p, e) == PLAIN_PEN
  }

  ghost predicate AllFaithful(ts: seq<Token>) {
    forall t :: t in ts && t.Escape? ==> Faithful(t.bytes)
  }

  // ---------------------------------------------------------------- replay

  /** Replaying a on a plain terminal gives the style st. */
  ghost predicate Replays(a: Active, st: Style) {
    && (forall t :: t in a.sgr ==> t.Escape? && IsCsiM(t.bytes))
    && (forall t :: t in a.link ==> t.Escape? && IsOsc8(t.bytes))
    && StyleAfter(PLAIN, a.sgr) == Style(st.pen, NoLink)
    && StyleAfter(PLAIN, a.link) == Style(PLAIN_PEN, st.link)
    && (a.link == [] <==> st.link == NoLink)
    && |a.link| <= 1
  }

  lemma CsiKeepsLink(l: Link, e: Text)
    requires IsCsiM(e)
    ensures ApplyLink(l, e) == l
  {
  }

  lemma OscKeepsPen(p: Pen, e: Text)
    requires IsOsc8(e)
    ensures ApplyPen(p, e) == p
  {
  }

  lemma {:induction false} LinkKeepsPen(st: Style, ts: seq<Token>)
    requires forall t :: t in ts ==> t.Escape? && IsOsc8(t.bytes)
    ensures StyleAfter(st, ts).pen == st.pen
    ensures forall st2: Style :: st2.link == st.link ==> StyleAfter(st2, ts).link == StyleAfter(st, ts).link
    decreases |ts|
  {
    if ts != [] {
      var t := ts[0];
      assert t in ts;
      OscKeepsPen(st.pen, t.bytes);
      LinkKeepsPen(Apply(st, t.bytes), ts[1..]);
    }
  }

  /** The sequences put at the start of a continuation line restore the style. */
  lemma ReplayStyle(a: Active, st: Style)
    requires Replays(a, st)
    ensures StyleAfter(PLAIN, a.sgr + a.link) == st
  {
    StyleAppend(PLAIN, a.sgr, a.link);
    LinkKeepsPen(Style(st.pen, NoLink), a.link);
    LinkKeepsPen(PLAIN, a.link);
  }

  lemma StyleOne(st: Style, t: Token)
    ensures StyleAfter(st, [t]) == if t.Escape? then Apply(st, t.bytes) else st
  {
    assert [t][1..] == [];
  }

  lemma RememberOsc(a: Active, l: Link, e: Text)
    requires IsOsc8(e)
    ensures var k := IndexOf(e[4..], ';' as int);
            if k < |e| - 4 && OscEnd(e).Some? then
              && 4 + k + 1 <= OscEnd(e).value
              && ApplyLink(l, e) == (if OscEnd(e).value == 4 + k + 1 then NoLink
                                     else Link(e[4..4 + k], e[4 + k + 1..OscEnd(e).value]))
            else ApplyLink(l, e) == l
  {
    var k := IndexOf(e[4..], ';' as int);
    if OscEnd(e).Some? {
      var end := OscEnd(e).value;
      var text := e[4..end];
      var j := IndexOf(text, ';' as int);
      if k < |e| - 4 {
        assert e[4..][k] == e[4 + k];
        assert 4 + k < end;
        assert text[k] == ';' as int;
        assert forall i :: 0 <= i < k ==> text[i] == e[4..][i];
        assert j == k;
        assert text[..k] == e[4..4 + k];
        assert text[k + 1..] == e[4 + k + 1..end];
      } else {
        assert forall i :: 0 <= i < |text| ==> text[i] == e[4..][i];
        assert j == |text|;
      }
    }
  }

  /** One more escape, seen by terminal and wrapper alike. */
  lemma ReplayStep(a: Active, st: Style, e: Text)
    requires Replays(a, st) && Faithful(e)
    ensures Replays(Remember(a, e), Apply(st, e))
  {
    if IsCsiM(e) {
      CsiKeepsLink(st.link, e);
      CsiKeepsLink(NoLink, e);
      if Resets(e) {
      } else {
        StyleAppend(PLAIN, a.sgr, [Escape(e)]);
        StyleOne(Style(st.pen, NoLink), Escape(e));
      }
    } else if IsOsc8(e) {
      OscKeepsPen(st.pen, e);
      OscKeepsPen(PLAIN_PEN, e);
      RememberOsc(a, st.link, e);
      RememberOsc(a, NoLink, e);
      StyleOne(PLAIN, Escape(e));
    }
  }

  lemma {:induction false} ReplayAll(a: Active, st: Style, ts: seq<Token>)
    requires Replays(a, st) && AllFaithful(ts)
    ensures Replays(RememberAll(a, ts), StyleAfter(st, ts))
    decreases |ts|
  {
    if ts != [] {
      assert ts[0] in ts;
      if ts[0].Escape? {
        ReplayStep(a, st, ts[0].bytes);
        ReplayAll(Remember(a, ts[0].bytes), Apply(st, ts[0].bytes), ts[1..]);
      } else {
        ReplayAll(a, st, ts[1..]);
      }
    }
  }
}
