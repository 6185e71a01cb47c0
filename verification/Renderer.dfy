/**
 The renderer with its cache of previous lines, writing to a terminal command by command.
 */
module Renderer {
  import opened Bytes
  import opened Seqs
  import opened RenderModel
  import opened RenderFrame

  class Terminal {
    var rows: map<int, Text>
    var row: int
    var col: int
    var visible: bool
    var redrawn: seq<int>

    function View(): Screen
      reads this
    {
      Screen(rows, row, col, visible, redrawn)
    }

    constructor ()
      ensures View() == BLANK_SCREEN
    {
      rows, row, col, visible, redrawn := map[], 1, 1, false, [];
    }

    /** Moves to the first column of a row and clears the row. */
    method ClearLine(r: int)
      modifies this
      ensures View() == SetRow(old(View()), r, []).(row := r, col := 1)
    {
      row, col := r, 1;
      rows := rows[r := []];
      redrawn := redrawn + [r];
    }

    /** Text goes where the cursor is; where it leaves the cursor depends on its widths. */
    method Write(text: Text)
      requires row in rows
      modifies `rows
      ensures rows == old(rows)[row := old(rows)[row] + text]
    {
      rows := rows[row := rows[row] + text];
    }

    method MoveAndShow(r: int, c: int)
      modifies this
      ensures View() == Screen(old(rows), r, c, true, old(redrawn))
    {
      row, col, visible := r, c, true;
    }

    method Hide()
      modifies `visible
      ensures !visible
    {
      visible := false;
    }

    method ClearScreen()
      modifies this
      ensures View() == old(View()).(rows := map[], row := 1, col := 1)
    {
      rows, row, col := map[], 1, 1;
    }
  }

  lemma SanitisedAt(t: Text, i: nat)
    requires i < |t|
    ensures t[i] == CARRIAGE_RETURN && i + 1 < |t| && t[i + 1] == NEWLINE ==>
              Sanitised(t[i..]) == [SPACE] + Sanitised(t[i + 2..])
    ensures (t[i] == CARRIAGE_RETURN || t[i] == NEWLINE)
            && !(t[i] == CARRIAGE_RETURN && i + 1 < |t| && t[i + 1] == NEWLINE) ==>
              Sanitised(t[i..]) == [SPACE] + Sanitised(t[i + 1..])
    ensures t[i] != CARRIAGE_RETURN && t[i] != NEWLINE ==> Sanitised(t[i..]) == [t[i]] + Sanitised(t[i + 1..])
  {
    DropDrop(t, i, 1);
    if i + 1 < |t| {
      DropDrop(t, i, 2);
    }
  }

  /** Writes a line in chunks between its line ends. */
  method WriteFrameLineText(terminal: Terminal, text: Text)
    requires terminal.row in terminal.rows && terminal.rows[terminal.row] == []
    modifies terminal`rows
    ensures terminal.rows == old(terminal.rows)[terminal.row := Sanitised(text)]
  {
    hide Sanitised;
    var chunk, cursor := 0, 0;
    ghost var r := terminal.row;
    assert text[0..] == text;
    EmptyFront([], Sanitised(text));
    while cursor < |text|
      invariant 0 <= chunk <= cursor <= |text|
      invariant r in terminal.rows && terminal.rows == old(terminal.rows)[r := terminal.rows[r]]
      invariant Sanitised(text) == terminal.rows[r] + text[chunk..cursor] + Sanitised(text[cursor..])
    {
      SanitisedAt(text, cursor);
      ghost var written := terminal.rows[r] + text[chunk..cursor];
      if text[cursor] == CARRIAGE_RETURN || text[cursor] == NEWLINE {
        if cursor > chunk {
          terminal.Write(text[chunk..cursor]);
        }
        terminal.Write([SPACE]);
        if text[cursor] == CARRIAGE_RETURN && cursor + 1 < |text| && text[cursor + 1] == NEWLINE {
          cursor := cursor + 1;
        }
        cursor := cursor + 1;
        chunk := cursor;
        Assoc(written, [SPACE], Sanitised(text[cursor..]));
        EmptyBack(written + [SPACE], text[chunk..cursor]);
      } else {
        Assoc(written, [text[cursor]], Sanitised(text[cursor + 1..]));
        assert text[chunk..cursor + 1] == text[chunk..cursor] + [text[cursor]];
        Assoc(terminal.rows[r], text[chunk..cursor], [text[cursor]]);
        cursor := cursor + 1;
      }
    }
    NothingSanitised();
    assert text[cursor..] == [];
    EmptyBack(terminal.rows[r] + text[chunk..cursor], []);
    EmptyBack(terminal.rows[r], []);
    if cursor > chunk {
      terminal.Write(text[chunk..cursor]);
    } else {
      assert text[chunk..cursor] == [];
    }
  }

  method DrawFrameLine(terminal: Terminal, r: int, text: Text)
    modifies terminal
    ensures terminal.rows == old(terminal.rows)[r := Sanitised(text)] && terminal.visible == old(terminal.visible)
    ensures terminal.redrawn == old(terminal.redrawn) + [r]
  {
    terminal.ClearLine(r);
    WriteFrameLineText(terminal, text);
  }

  predicate SameRows(a: Screen, b: Screen) {
    a.rows == b.rows && a.redrawn == b.redrawn
  }

  /** Equal as far as anyone can see: a hidden cursor is nowhere. */
  predicate SameScreen(a: Screen, b: Screen) {
    && a.rows == b.rows && a.redrawn == b.redrawn && a.visible == b.visible
    && (a.visible ==> a.row == b.row && a.col == b.col)
  }

  class Renderer {
    const terminal: Terminal
    var previousLines: array?<Text>
    var previousTop: int
    var previousCursorRow: int
    var previousCursorCol: int
    var previousCursorVisible: bool

    ghost function CacheView(): Cache
      reads this, previousLines
    {
      if previousLines == null || previousLines.Length == 0 then Empty
      else Drawn(Frame(previousLines[..], previousTop, previousCursorRow, previousCursorCol, previousCursorVisible))
    }

    ghost function View(): State
      reads this, terminal, previousLines
    {
      State(CacheView(), terminal.View())
    }

    ghost predicate Valid()
      reads this, terminal, previousLines
    {
      (previousLines != null ==> previousLines.Length > 0) && InSync(View())
    }

    constructor (terminal: Terminal)
      requires terminal.View() == BLANK_SCREEN
      ensures Valid() && this.terminal == terminal && previousLines == null
    {
      this.terminal := terminal;
      previousLines, previousTop, previousCursorRow, previousCursorCol := null, 1, 0, 0;
      previousCursorVisible := false;
    }

    method ResetRenderCache()
      modifies this
      ensures CacheView() == Empty && previousLines == null
    {
      previousLines, previousTop, previousCursorRow, previousCursorCol := null, 1, 0, 0;
      previousCursorVisible := false;
    }

    method ClearRequest(force: bool)
      requires Valid()
      modifies this, terminal
      ensures Valid() && View() == Apply(old(View()), Clear(force))
    {
      if force {
        ResetRenderCache();
        terminal.ClearScreen();
      }
    }

    /** Compares the frame with the cache in place; what differs is replaced and marked. */
    method CompareLines(entries: seq<Entry>, lines: array<Text>) returns (changed: array<bool>, any: bool)
      requires lines.Length == |entries|
      modifies lines
      ensures fresh(changed) && changed.Length == |entries|
      ensures lines[..] == EntryLines(entries)
      ensures forall i :: 0 <= i < |entries| ==> (changed[i] <==> old(lines[..])[i] != EntryLine(entries[i]))
      ensures any <==> old(lines[..]) != EntryLines(entries)
    {
      hide EntryLine;
      changed := new bool[|entries|];
      any := false;
      ghost var before, target := lines[..], EntryLines(entries);
      var i := 0;
      while i < |entries|
        invariant 0 <= i <= |entries| && changed.Length == |entries|
        invariant forall j :: 0 <= j < i ==> lines[j] == target[j]
        invariant forall j :: i <= j < |entries| ==> lines[j] == before[j]
        invariant forall j :: 0 <= j < i ==> (changed[j] <==> before[j] != target[j])
        invariant any <==> exists j :: 0 <= j < i && changed[j]
      {
        var line := EntryLine(entries[i]);
        changed[i] := lines[i] != line;
        if lines[i] != line {
          lines[i] := line;
          any := true;
          assert changed[i];
        }
        i := i + 1;
      }
      SameIffNowhereChanged(before, target, changed[..]);
      assert lines[..] == target;
    }

    /** Draws the marked lines of a frame, or all of them. */
    method DrawLines(lines: array<Text>, changed: array?<bool>, top: int)
      requires changed != null ==> changed.Length == lines.Length
      modifies terminal
      ensures var mask := if changed == null then AllRows(lines.Length) else changed[..];
              SameRows(terminal.View(), DrawRows(old(terminal.View()), top, lines[..], mask, lines.Length))
      ensures terminal.visible == old(terminal.visible)
    {
      ghost var mask := if changed == null then AllRows(lines.Length) else changed[..];
      ghost var start := terminal.View();
      var i := 0;
      while i < lines.Length
        invariant 0 <= i <= lines.Length && terminal.visible == start.visible
        invariant SameRows(terminal.View(), DrawRows(start, top, lines[..], mask, i))
      {
        if changed == null || changed[i] {
          DrawFrameLine(terminal, top + i, lines[i]);
        }
        i := i + 1;
      }
    }

    method ClearOldRows(top: int, n: nat)
      modifies terminal
      ensures SameRows(terminal.View(), ClearRows(old(terminal.View()), top, n))
      ensures terminal.visible == old(terminal.visible)
    {
      ghost var start := terminal.View();
      for i := 0 to n
        invariant SameRows(terminal.View(), ClearRows(start, top, i)) && terminal.visible == start.visible
      {
        terminal.ClearLine(top + i);
      }
    }

    /** One synchronised update: old rows, lines, cursor. */
    method Output(lines: array<Text>, changed: array?<bool>, clearOld: bool, oldTop: int, oldCount: nat,
                  top: int, cursorRow: int, cursorCol: int, cursorVisible: bool)
      requires changed != null ==> changed.Length == lines.Length
      modifies terminal
      ensures var frame := Frame(lines[..], top, cursorRow, cursorCol, cursorVisible);
              var mask := if changed == null then AllRows(lines.Length) else changed[..];
              SameScreen(terminal.View(), Updated(old(terminal.View()), clearOld, oldTop, oldCount, frame, mask))
    {
      ghost var start := terminal.View();
      ghost var cleared := if clearOld then ClearRows(start, oldTop, oldCount) else start;
      ghost var mask := if changed == null then AllRows(lines.Length) else changed[..];
      terminal.Hide();
      SameRowsCleared(start, terminal.View(), oldTop, oldCount);
      if clearOld {
        ClearOldRows(oldTop, oldCount);
      }
      SameRowsDrawn(terminal.View(), cleared, top, lines[..], mask, lines.Length);
      DrawLines(lines, changed, top);
      if cursorVisible {
        terminal.MoveAndShow(top + cursorRow - 1, cursorCol);
      } else {
        terminal.Hide();
      }
    }

    /** The lines to keep: the cached array, brought up to date, or a new one. */
    method NextLines(rows: seq<Entry>) returns (lines: array<Text>, changed: array?<bool>, linesChanged: bool)
      requires |rows| > 0 && (previousLines != null ==> previousLines.Length > 0)
      modifies if previousLines == null then {} else {previousLines}
      ensures lines[..] == EntryLines(rows) && lines.Length == |rows|
      ensures if changed != null then old(CacheView()).Drawn? && lines == previousLines else fresh(lines)
      ensures changed != null <==> old(CacheView()).Drawn? && |old(CacheView()).frame.lines| == |rows|
      ensures changed != null ==> forall f: Frame :: f.lines == EntryLines(rows) ==>
                changed[..] == Changed(old(CacheView()), f)
      ensures linesChanged <==> changed == null || old(CacheView()).frame.lines != EntryLines(rows)
    {
      hide EntryLine;
      changed, linesChanged := null, true;
      if previousLines != null && previousLines.Length == |rows| {
        lines := previousLines;
        changed, linesChanged := CompareLines(rows, lines);
      } else {
        lines := new Text[|rows|](i requires 0 <= i < |rows| => EntryLine(rows[i]));
        assert lines[..] == EntryLines(rows);
      }
    }

    /** Draws what the cache does not show already. */
    method Redraw(ghost before: State, lines: array<Text>, changed: array?<bool>, linesChanged: bool, force: bool,
                  top: int, cursorRow: int, cursorCol: int, cursorVisible: bool)
      requires before.cache.Empty? <==> previousLines == null
      requires before.screen == terminal.View()
      requires before.cache.Drawn? ==>
                 before.cache.frame == Frame(before.cache.frame.lines, previousTop, previousCursorRow,
                                             previousCursorCol, previousCursorVisible)
                 && |before.cache.frame.lines| == previousLines.Length
      requires changed != null <==> before.cache.Drawn? && |before.cache.frame.lines| == lines.Length
      requires changed != null ==>
                 changed[..] == Changed(before.cache, Frame(lines[..], top, cursorRow, cursorCol, cursorVisible))
      requires linesChanged <==> changed == null || before.cache.frame.lines != lines[..]
      modifies terminal
      ensures var frame := Frame(lines[..], top, cursorRow, cursorCol, cursorVisible);
              SameScreen(terminal.View(), Render(before, frame, force).screen)
    {
      hide Changed, Render, SameScreen, Updated;
      ghost var frame := Frame(lines[..], top, cursorRow, cursorCol, cursorVisible);
      var oldCount := if previousLines == null then 0 else previousLines.Length;
      RenderDecides(before, frame, force, previousTop, oldCount);
      var fullRedraw := force || changed == null || previousTop != top;
      var cursorChanged :=
        previousCursorRow != cursorRow || previousCursorCol != cursorCol || previousCursorVisible != cursorVisible;
      if fullRedraw || cursorChanged || linesChanged {
        var clearOld := fullRedraw && previousLines != null && (previousTop != top || oldCount != lines.Length);
        Output(lines, if fullRedraw then null else changed, clearOld, previousTop, oldCount,
               top, cursorRow, cursorCol, cursorVisible);
      } else {
        SameAsItself(terminal.View());
      }
    }

    method StoreCache(lines: array<Text>, top: int, cursorRow: int, cursorCol: int, cursorVisible: bool)
      requires lines.Length > 0
      modifies this
      ensures previousLines == lines
      ensures CacheView() == Drawn(Frame(lines[..], top, cursorRow, cursorCol, cursorVisible))
    {
      previousLines := lines;
      previousTop, previousCursorRow, previousCursorCol := top, cursorRow, cursorCol;
      previousCursorVisible := cursorVisible;
    }

    /** Brings screen and cache up to date with a frame whose numbers are in range. */
    method Update(rows: seq<Entry>, top: int, cursorRow: int, cursorCol: int, cursorVisible: bool, force: bool)
      requires Valid() && |rows| > 0
      modifies this, terminal, if previousLines == null then {} else {previousLines}
      ensures var frame := Frame(EntryLines(rows), top, cursorRow, cursorCol, cursorVisible);
              && previousLines != null && previousLines.Length > 0
              && CacheView() == Drawn(frame)
              && SameScreen(terminal.View(), Render(old(View()), frame, force).screen)
    {
      hide InSync, EntryLines, Render, SameScreen, Changed;
      ghost var before := View();
      var lines, changed, linesChanged := NextLines(rows);
      Redraw(before, lines, changed, linesChanged, force, top, cursorRow, cursorCol, cursorVisible);
      StoreCache(lines, top, cursorRow, cursorCol, cursorVisible);
    }

    method RenderLines(entries: seq<Entry>, cursorRowArg: int, cursorColArg: int, cursorVisible: bool, force: bool,
                       topArg: int)
      requires Valid()
      modifies this, terminal, if previousLines == null then {} else {previousLines}
      ensures Valid()
      ensures var q := RenderModel.RenderLines(entries, cursorRowArg, cursorColArg, cursorVisible, force, topArg);
              && Shows(terminal.View(), AskedFrame(q))
              && CacheView() == Drawn(AskedFrame(q))
              && SameScreen(terminal.View(), Render(old(View()), AskedFrame(q), force).screen)
      ensures ShowsEntries(terminal.View(), entries, cursorRowArg, cursorColArg, cursorVisible, topArg)
    {
      hide ShowsEntries, InSync, Shows, EntryLines, AskedFrame, Render, SameScreen, Changed;
      ghost var q := RenderModel.RenderLines(entries, cursorRowArg, cursorColArg, cursorVisible, force, topArg);
      ghost var before := View();
      RenderShows(before, AskedFrame(q), force);
      var rows := if |entries| == 0 then [Other] else entries;
      var cursorRow := if cursorRowArg < 1 then 1 else cursorRowArg;
      var cursorCol := if cursorColArg < 1 then 1 else cursorColArg;
      var top := if topArg < 1 then 1 else topArg;
      if cursorRow > |rows| {
        cursorRow := |rows|;
      }
      AskedIs(q, rows, top, cursorRow, cursorCol);
      Update(rows, top, cursorRow, cursorCol, cursorVisible, force);
      RedrawnShows(terminal.View(), Render(before, AskedFrame(q), force).screen, q);
      ShownInSync(View(), AskedFrame(q));
    }
  }

  /** One update of the screen: old rows blanked, picked lines drawn, cursor placed. */
  function Updated(s: Screen, clearOld: bool, oldTop: int, oldCount: nat, f: Frame, mask: seq<bool>): Screen
    requires |mask| == |f.lines|
  {
    var cleared := if clearOld then ClearRows(s, oldTop, oldCount) else s;
    PlaceCursor(DrawRows(cleared, f.top, f.lines, mask, |f.lines|), f)
  }

  /** What a render request does, in the terms in which the loops decide it. */
  lemma RenderDecides(st: State, f: Frame, force: bool, oldTop: int, oldCount: nat)
    requires st.cache.Drawn? ==> oldTop == st.cache.frame.top && oldCount == |st.cache.frame.lines|
    ensures var c := st.cache;
            var reuse := c.Drawn? && |c.frame.lines| == |f.lines|;
            var full := force || !reuse || oldTop != f.top;
            var cursorChanged := c.Drawn? ==> c.frame.cursorRow != f.cursorRow || c.frame.cursorCol != f.cursorCol
                                              || c.frame.cursorVisible != f.cursorVisible;
            var clearOld := full && c.Drawn? && (oldTop != f.top || oldCount != |f.lines|);
            var mask := if full then AllRows(|f.lines|) else Changed(c, f);
            Render(st, f, force).screen ==
            if full || cursorChanged || c.frame.lines != f.lines
            then Updated(st.screen, clearOld, oldTop, oldCount, f, mask)
            else st.screen
  {
    hide DrawRows, ClearRows, PlaceCursor;
  }

  lemma AskedIs(q: Request, rows: seq<Entry>, top: int, cursorRow: int, cursorCol: int)
    requires q.RenderLines? && rows == (if |q.entries| == 0 then [Other] else q.entries)
    requires top == AtLeastOne(q.top) && cursorCol == AtLeastOne(q.cursorCol)
    requires cursorRow == if AtLeastOne(q.cursorRow) > |rows| then |rows| else AtLeastOne(q.cursorRow)
    ensures AskedFrame(q) == Frame(EntryLines(rows), top, cursorRow, cursorCol, q.cursorVisible)
  {
    assert q.entries == [] ==> EntryLines(rows) == [[]];
  }

  lemma SameAsItself(s: Screen)
    ensures SameScreen(s, s)
  {
  }

  lemma SameShows(a: Screen, b: Screen, f: Frame)
    requires SameScreen(a, b) && Shows(b, f)
    ensures Shows(a, f)
  {
    assert forall r: int :: RowText(a, r) == RowText(b, r);
  }

  lemma RedrawnShows(a: Screen, b: Screen, q: Request)
    requires q.RenderLines? && SameScreen(a, b) && Shows(b, AskedFrame(q))
    ensures Shows(a, AskedFrame(q))
    ensures ShowsEntries(a, q.entries, q.cursorRow, q.cursorCol, q.cursorVisible, q.top)
  {
    SameShows(a, b, AskedFrame(q));
    FrameShowsEntries(a, q);
  }

  lemma ShownInSync(st: State, f: Frame)
    requires st.cache == Drawn(f) && Shows(st.screen, f)
    ensures InSync(st)
  {
  }

  lemma {:induction false} SameRowsCleared(a: Screen, b: Screen, top: int, n: nat)
    requires SameRows(a, b)
    ensures SameRows(ClearRows(a, top, n), ClearRows(b, top, n))
  {
    if n > 0 {
      SameRowsCleared(a, b, top, n - 1);
    }
  }

  lemma {:induction false} SameRowsDrawn(a: Screen, b: Screen, top: int, lines: seq<Text>, mask: seq<bool>, n: nat)
    requires n <= |lines| == |mask| && SameRows(a, b)
    ensures SameRows(DrawRows(a, top, lines, mask, n), DrawRows(b, top, lines, mask, n))
  {
    if n > 0 {
      SameRowsDrawn(a, b, top, lines, mask, n - 1);
    }
  }

  lemma SameIffNowhereChanged(a: seq<Text>, b: seq<Text>, mask: seq<bool>)
    requires |a| == |b| == |mask|
    requires forall j :: 0 <= j < |mask| ==> (mask[j] <==> a[j] != b[j])
    ensures a != b <==> exists j :: 0 <= j < |mask| && mask[j]
  {
    if a != b {
      var j :| 0 <= j < |a| && a[j] != b[j];
      assert mask[j];
    }
  }
}
