/**
 The differential line renderer as a function on its cache and the terminal, and why the
 terminal always shows what a full redraw of the last frame would show.
 */
module RenderModel {
  import opened Bytes
  import opened Seqs

  // ---------------------------------------------------------------- terminal

  /** Rows that were never written, or were cleared, are blank. The last component is history:
      the rows that were cleared, to be drawn again or not. */
  datatype Screen = Screen(rows: map<int, Text>, row: int, col: int, visible: bool, redrawn: seq<int>)

  function RowText(s: Screen, r: int): Text {
    if r in s.rows then s.rows[r] else []
  }

  const BLANK_SCREEN := Screen(map[], 1, 1, false, [])

  function SetRow(s: Screen, r: int, text: Text): Screen {
    s.(rows := s.rows[r := text], redrawn := s.redrawn + [r])
  }

  // ---------------------------------------------------------------- lines

  /** Line ends inside a line are drawn as one space each. */
  function Sanitised(t: Text): Text {
    if t == [] then []
    else if t[0] == CARRIAGE_RETURN && |t| > 1 && t[1] == NEWLINE then [SPACE] + Sanitised(t[2..])
    else if t[0] == CARRIAGE_RETURN || t[0] == NEWLINE then [SPACE] + Sanitised(t[1..])
    else [t[0]] + Sanitised(t[1..])
  }

  /** A drawn line never leaves its row. */
  lemma {:induction false} SanitisedStaysOnRow(t: Text)
    ensures forall k :: 0 <= k < |Sanitised(t)| ==> Sanitised(t)[k] != CARRIAGE_RETURN && Sanitised(t)[k] != NEWLINE
    ensures (forall k :: 0 <= k < |t| ==> t[k] != CARRIAGE_RETURN && t[k] != NEWLINE) ==> Sanitised(t) == t
    decreases |t|
  {
    if t != [] {
      if t[0] == CARRIAGE_RETURN && |t| > 1 && t[1] == NEWLINE {
        SanitisedStaysOnRow(t[2..]);
      } else {
        SanitisedStaysOnRow(t[1..]);
      }
    }
  }

  // ---------------------------------------------------------------- requests

  /** An entry of the frame table: a string, or anything else, which counts as empty. */
  datatype Entry = Str(text: Text) | Other

  function EntryLine(e: Entry): Text {
    if e.Str? then CString(e.text) else []
  }

  datatype Request =
    | RenderLines(entries: seq<Entry>, cursorRow: int, cursorCol: int, cursorVisible: bool, force: bool, top: int)
    | Clear(force: bool)

  function AtLeastOne(v: int): int {
    if v < 1 then 1 else v
  }

  /** The frame that a render request asks for. */
  datatype Frame = Frame(lines: seq<Text>, top: int, cursorRow: int, cursorCol: int, cursorVisible: bool)

  function EntryLines(entries: seq<Entry>): (lines: seq<Text>)
    ensures |lines| == |entries|
    ensures forall i :: 0 <= i < |entries| ==> lines[i] == EntryLine(entries[i])
  {
    seq(|entries|, i requires 0 <= i < |entries| => EntryLine(entries[i]))
  }

  function AskedFrame(q: Request): (f: Frame)
    requires q.RenderLines?
    ensures f.lines != []
  {
    var lines := if q.entries == [] then [[]] else EntryLines(q.entries);
    var row := AtLeastOne(q.cursorRow);
    Frame(lines, AtLeastOne(q.top), if row > |lines| then |lines| else row, AtLeastOne(q.cursorCol), q.cursorVisible)
  }

  /** What the screen shows of a frame: its lines at its viewport, nothing elsewhere, and
      the cursor as asked. */
  ghost predicate Shows(s: Screen, f: Frame) {
    && (forall r: int :: RowText(s, r) ==
                         if f.top <= r < f.top + |f.lines| then Sanitised(f.lines[r - f.top]) else [])
    && s.visible == f.cursorVisible
    && (f.cursorVisible ==> s.row == f.top + f.cursorRow - 1 && s.col == f.cursorCol)
  }

  ghost predicate Blank(s: Screen) {
    forall r: int :: RowText(s, r) == []
  }

  // ---------------------------------------------------------------- the renderer

  /** The cache: the last frame drawn, or nothing since the last reset. */
  datatype Cache = Empty | Drawn(frame: Frame)

  datatype State = State(cache: Cache, screen: Screen)

  const START := State(Empty, BLANK_SCREEN)

  /** Blanks the first n rows from top. */
  function ClearRows(s: Screen, top: int, n: nat): Screen {
    if n == 0 then s else SetRow(ClearRows(s, top, n - 1), top + n - 1, [])
  }

  /** Draws those of the first n lines that the mask picks. */
  function DrawRows(s: Screen, top: int, lines: seq<Text>, mask: seq<bool>, n: nat): Screen
    requires n <= |lines| == |mask|
  {
    if n == 0 then s
    else
      var before := DrawRows(s, top, lines, mask, n - 1);
      if mask[n - 1] then SetRow(before, top + n - 1, Sanitised(lines[n - 1])) else before
  }

  function PlaceCursor(s: Screen, f: Frame): Screen {
    if f.cursorVisible then s.(row := f.top + f.cursorRow - 1, col := f.cursorCol, visible := true)
    else s.(visible := false)
  }

  predicate Reuses(c: Cache, f: Frame) {
    c.Drawn? && |c.frame.lines| == |f.lines|
  }

  function Changed(c: Cache, f: Frame): (mask: seq<bool>)
    ensures |mask| == |f.lines|
    ensures Reuses(c, f) ==> forall i :: 0 <= i < |f.lines| ==> (mask[i] <==> c.frame.lines[i] != f.lines[i])
  {
    seq(|f.lines|, i requires 0 <= i < |f.lines| => Reuses(c, f) && c.frame.lines[i] != f.lines[i])
  }

  predicate FullRedraw(c: Cache, f: Frame, force: bool) {
    force || !Reuses(c, f) || c.frame.top != f.top
  }

  predicate CursorChanged(c: Cache, f: Frame) {
    c.Empty? || c.frame.cursorRow != f.cursorRow || c.frame.cursorCol != f.cursorCol
    || c.frame.cursorVisible != f.cursorVisible
  }

  function AllRows(n: nat): (mask: seq<bool>)
    ensures |mask| == n && forall i :: 0 <= i < n ==> mask[i]
  {
    seq(n, i => true)
  }

  predicate AnyOutput(c: Cache, f: Frame, force: bool) {
    FullRedraw(c, f, force) || CursorChanged(c, f) || c.frame.lines != f.lines
  }

  /** Rows of the previous viewport are blanked when the new one lies elsewhere. */
  function ClearOld(st: State, f: Frame, force: bool): Screen {
    var c := st.cache;
    if FullRedraw(c, f, force) && c.Drawn? && (c.frame.top != f.top || |c.frame.lines| != |f.lines|)
    then ClearRows(st.screen, c.frame.top, |c.frame.lines|) else st.screen
  }

  function Render(st: State, f: Frame, force: bool): State {
    var c := st.cache;
    var full := FullRedraw(c, f, force);
    var screen :=
      if !AnyOutput(c, f, force) then st.screen
      else
        var mask := if full then AllRows(|f.lines|) else Changed(c, f);
        PlaceCursor(DrawRows(ClearOld(st, f, force), f.top, f.lines, mask, |f.lines|), f);
    State(Drawn(f), screen)
  }

  function Apply(st: State, q: Request): State {
    match q
    case RenderLines(_, _, _, _, force, _) => Render(st, AskedFrame(q), force)
    case Clear(force) => if force then State(Empty, st.screen.(rows := map[], row := 1, col := 1)) else st
  }

  // ---------------------------------------------------------------- the cache tells the truth

  ghost predicate InSync(st: State) {
    match st.cache
    case Empty => Blank(st.screen)
    case Drawn(f) => Shows(st.screen, f)
  }

  lemma SetRowText(s: Screen, k: int, text: Text)
    ensures forall r: int :: RowText(SetRow(s, k, text), r) == if r == k then text else RowText(s, r)
    ensures SetRow(s, k, text).(rows := s.rows, redrawn := s.redrawn) == s
  {
  }

  lemma {:induction false} ClearedRows(s: Screen, top: int, n: nat)
    ensures forall r: int :: RowText(ClearRows(s, top, n), r) == if top <= r < top + n then [] else RowText(s, r)
    ensures ClearRows(s, top, n).(rows := s.rows, redrawn := s.redrawn) == s
  {
    if n > 0 {
      ClearedRows(s, top, n - 1);
      SetRowText(ClearRows(s, top, n - 1), top + n - 1, []);
    }
  }

  lemma {:induction false} DrawnRows(s: Screen, top: int, lines: seq<Text>, mask: seq<bool>, n: nat)
    requires n <= |lines| == |mask|
    ensures forall r: int :: RowText(DrawRows(s, top, lines, mask, n), r) ==
                             if top <= r < top + n && mask[r - top] then Sanitised(lines[r - top]) else RowText(s, r)
    ensures DrawRows(s, top, lines, mask, n).(rows := s.rows, redrawn := s.redrawn) == s
  {
    if n > 0 {
      DrawnRows(s, top, lines, mask, n - 1);
      SetRowText(DrawRows(s, top, lines, mask, n - 1), top + n - 1, Sanitised(lines[n - 1]));
    }
  }

  /** Rows outside the new viewport are blank before anything is drawn. */
  lemma OutsideBlank(st: State, f: Frame, force: bool, r: int)
    requires InSync(st) && !(f.top <= r < f.top + |f.lines|)
    ensures RowText(ClearOld(st, f, force), r) == []
  {
    hide Sanitised;
    if st.cache.Drawn? {
      ClearedRows(st.screen, st.cache.frame.top, |st.cache.frame.lines|);
    }
  }

  /** Rows that are not redrawn already show their line. */
  lemma UnchangedShown(st: State, f: Frame, r: int)
    requires InSync(st) && f.top <= r < f.top + |f.lines|
    requires !FullRedraw(st.cache, f, false) && !Changed(st.cache, f)[r - f.top]
    ensures RowText(st.screen, r) == Sanitised(f.lines[r - f.top])
  {
    hide Sanitised;
  }

  lemma DrawnShows(st: State, f: Frame, force: bool, r: int)
    requires InSync(st) && AnyOutput(st.cache, f, force)
    ensures RowText(Render(st, f, force).screen, r) ==
            if f.top <= r < f.top + |f.lines| then Sanitised(f.lines[r - f.top]) else []
  {
    hide Sanitised, InSync;
    var full := FullRedraw(st.cache, f, force);
    var mask := if full then AllRows(|f.lines|) else Changed(st.cache, f);
    DrawnRows(ClearOld(st, f, force), f.top, f.lines, mask, |f.lines|);
    if !(f.top <= r < f.top + |f.lines|) {
      OutsideBlank(st, f, force, r);
    } else if !mask[r - f.top] {
      UnchangedShown(st, f, r);
    }
  }

  lemma NothingToDraw(st: State, f: Frame, force: bool)
    requires !AnyOutput(st.cache, f, force)
    ensures st.cache == Drawn(f) && Render(st, f, force) == st
  {
  }

  /** A render request leaves the screen as a full redraw of its frame would. */
  lemma RenderShows(st: State, f: Frame, force: bool)
    requires InSync(st)
    ensures Shows(Render(st, f, force).screen, f) && Render(st, f, force).cache == Drawn(f)
  {
    if AnyOutput(st.cache, f, force) {
      forall r: int
        ensures RowText(Render(st, f, force).screen, r) ==
                if f.top <= r < f.top + |f.lines| then Sanitised(f.lines[r - f.top]) else []
      {
        DrawnShows(st, f, force, r);
      }
    } else {
      NothingToDraw(st, f, force);
    }
  }

  lemma ApplyInSync(st: State, q: Request)
    requires InSync(st)
    ensures InSync(Apply(st, q))
  {
    if q.RenderLines? {
      RenderShows(st, AskedFrame(q), q.force);
    }
  }

  function ApplyAll(st: State, qs: seq<Request>): State
    decreases |qs|
  {
    if qs == [] then st else Apply(ApplyAll(st, qs[..|qs| - 1]), qs[|qs| - 1])
  }

  lemma {:induction false} RunInSync(qs: seq<Request>)
    ensures InSync(ApplyAll(START, qs))
    decreases |qs|
  {
    if qs != [] {
      RunInSync(qs[..|qs| - 1]);
      ApplyInSync(ApplyAll(START, qs[..|qs| - 1]), qs[|qs| - 1]);
    }
  }

  /** After any requests that end with a frame, and then only unforced clears, the screen
      shows exactly that frame, however little of it was redrawn. */
  lemma {:induction false} LastFrameShown(qs: seq<Request>, q: Request, idle: seq<Request>)
    requires q.RenderLines? && forall r :: r in idle ==> r == Clear(false)
    ensures Shows(ApplyAll(START, qs + [q] + idle).screen, AskedFrame(q))
    decreases |idle|
  {
    hide Shows, AskedFrame;
    var all := qs + [q] + idle;
    if idle == [] {
      EmptyBack(qs + [q], idle);
      assert all[..|all| - 1] == qs;
      RunInSync(qs);
      RenderShows(ApplyAll(START, qs), AskedFrame(q), q.force);
    } else {
      var k := |idle| - 1;
      assert idle[k] in idle;
      assert all[..|all| - 1] == qs + [q] + idle[..k];
      assert forall r :: r in idle[..k] ==> r in idle;
      LastFrameShown(qs, q, idle[..k]);
    }
  }

  /** A frame drawn on a blank terminal, everything redrawn. */
  function Redrawn(f: Frame): Screen {
    Render(START, f, true).screen
  }

  /** Differential redraw equals full redraw, row by row. */
  lemma DifferentialIsFull(qs: seq<Request>, q: Request)
    requires q.RenderLines?
    ensures var s, full := ApplyAll(START, qs + [q]).screen, Redrawn(AskedFrame(q));
            && (forall r: int :: RowText(s, r) == RowText(full, r))
            && s.visible == full.visible
            && (s.visible ==> s.row == full.row && s.col == full.col)
  {
    LastFrameShown(qs, q, []);
    EmptyBack(qs + [q], []);
    RenderShows(START, AskedFrame(q), true);
  }
}
