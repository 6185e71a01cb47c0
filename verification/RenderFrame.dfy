/**
 What the screen shows of the table that a render request hands over, entry by entry.
 */
module RenderFrame {
  import opened Bytes
  import opened Seqs
  import opened RenderModel

  /** A string up to its first NUL, with every line end drawn as a space; anything else is
      nothing. */
  ghost predicate DrawnAs(e: Entry, shown: Text) {
    match e
    case Str(t) =>
      && (0 !in t ==> shown == Sanitised(t))
      && (forall k :: 0 <= k < |t| && t[k] == 0 && 0 !in t[..k] ==> shown == Sanitised(t[..k]))
    case Other => shown == []
  }

  /** The entries from row `top` on, every other row blank, and the cursor relative to the first
      entry. Arguments below one act as one, and a cursor row beyond the end as the last. */
  ghost predicate ShowsEntries(s: Screen, entries: seq<Entry>, row: int, col: int, visible: bool, top: int) {
    var first := if top >= 1 then top else 1;
    && (forall i :: 0 <= i < |entries| ==> DrawnAs(entries[i], RowText(s, first + i)))
    && (forall r :: r < first || r >= first + |entries| ==> RowText(s, r) == [])
    && s.visible == visible
    && (visible ==>
          && s.col == (if col >= 1 then col else 1)
          && s.row == first + (if row <= 1 || |entries| <= 1 then 0 else if row <= |entries| then row - 1
                               else |entries| - 1))
  }

  lemma {:induction false} CutAtNul(t: Text, k: nat)
    requires k < |t| && t[k] == 0 && 0 !in t[..k]
    ensures CString(t) == t[..k]
  {
    if k > 0 {
      assert t[0] in t[..k];
      assert t[1..][..k - 1] == t[..k][1..];
      CutAtNul(t[1..], k - 1);
    }
  }

  lemma {:induction false} NoNul(t: Text)
    requires 0 !in t
    ensures CString(t) == t
  {
    if t != [] {
      NoNul(t[1..]);
    }
  }

  lemma LineDrawn(e: Entry)
    ensures DrawnAs(e, Sanitised(EntryLine(e)))
  {
    hide Sanitised;
    if e.Str? {
      if 0 !in e.text {
        NoNul(e.text);
      }
      forall k | 0 <= k < |e.text| && e.text[k] == 0 && 0 !in e.text[..k]
        ensures CString(e.text) == e.text[..k]
      {
        CutAtNul(e.text, k);
      }
    } else {
      NothingSanitised();
    }
  }

  lemma NothingSanitised()
    ensures Sanitised([]) == []
  {
  }

  lemma AskedLines(q: Request)
    requires q.RenderLines?
    ensures var f := AskedFrame(q);
            && |f.lines| == (if q.entries == [] then 1 else |q.entries|)
            && (forall i :: 0 <= i < |q.entries| ==> f.lines[i] == EntryLine(q.entries[i]))
            && (q.entries == [] ==> f.lines[0] == [])
  {
    hide EntryLine;
  }

  lemma AskedElse(q: Request)
    requires q.RenderLines?
    ensures var f := AskedFrame(q);
            && f.top == (if q.top >= 1 then q.top else 1)
            && f.cursorCol == (if q.cursorCol >= 1 then q.cursorCol else 1)
            && f.cursorRow == (if q.cursorRow <= 1 || |q.entries| <= 1 then 1
                               else if q.cursorRow <= |q.entries| then q.cursorRow else |q.entries|)
            && f.cursorVisible == q.cursorVisible
  {
  }

  lemma RowShown(s: Screen, q: Request, i: nat)
    requires q.RenderLines? && Shows(s, AskedFrame(q)) && i < |q.entries|
    ensures DrawnAs(q.entries[i], RowText(s, AskedFrame(q).top + i))
  {
    hide DrawnAs, Sanitised, EntryLine, AskedFrame, RowText;
    AskedLines(q);
    LineDrawn(q.entries[i]);
    var f := AskedFrame(q);
    assert RowText(s, f.top + i) == Sanitised(f.lines[f.top + i - f.top]);
  }

  lemma OthersBlank(s: Screen, q: Request, r: int)
    requires q.RenderLines? && Shows(s, AskedFrame(q))
    requires r < AskedFrame(q).top || r >= AskedFrame(q).top + |q.entries|
    ensures RowText(s, r) == []
  {
    hide Sanitised, EntryLine, AskedFrame, RowText;
    AskedLines(q);
    NothingSanitised();
  }

  lemma CursorShown(s: Screen, q: Request)
    requires q.RenderLines? && Shows(s, AskedFrame(q))
    ensures s.visible == AskedFrame(q).cursorVisible
    ensures s.visible ==> s.col == AskedFrame(q).cursorCol && s.row == AskedFrame(q).top + AskedFrame(q).cursorRow - 1
  {
  }

  /** A screen that shows the frame shows the entries. */
  lemma FrameShowsEntries(s: Screen, q: Request)
    requires q.RenderLines? && Shows(s, AskedFrame(q))
    ensures ShowsEntries(s, q.entries, q.cursorRow, q.cursorCol, q.cursorVisible, q.top)
  {
    hide DrawnAs, Shows, AskedFrame, RowText;
    AskedElse(q);
    CursorShown(s, q);
    var top := AskedFrame(q).top;
    forall i | 0 <= i < |q.entries|
      ensures DrawnAs(q.entries[i], RowText(s, top + i))
    {
      RowShown(s, q, i);
    }
    forall r | r < top || r >= top + |q.entries|
      ensures RowText(s, r) == []
    {
      OthersBlank(s, q, r);
    }
  }

  /** Whatever was asked before, a render request leaves its table on the screen. */
  lemma TableShown(qs: seq<Request>, entries: seq<Entry>, row: int, col: int, visible: bool, force: bool, top: int)
    ensures var q := RenderLines(entries, row, col, visible, force, top);
            ShowsEntries(ApplyAll(START, qs + [q]).screen, entries, row, col, visible, top)
  {
    hide ShowsEntries, Shows, AskedFrame;
    var q := RenderLines(entries, row, col, visible, force, top);
    LastFrameShown(qs, q, []);
    EmptyBack(qs + [q], []);
    FrameShowsEntries(ApplyAll(START, qs + [q]).screen, q);
  }

  /** A forced clear leaves a blank screen and the cursor at home; any other changes nothing. */
  lemma ClearBlanks(qs: seq<Request>, force: bool)
    ensures var before, after := ApplyAll(START, qs), ApplyAll(START, qs + [Clear(force)]);
            if force then (forall r: int :: RowText(after.screen, r) == [])
                          && after.screen.row == 1 && after.screen.col == 1
                          && after.screen.visible == before.screen.visible
            else after == before
  {
    assert (qs + [Clear(force)])[..|qs|] == qs;
  }

  // ---------------------------------------------------------------- how little is written

  /** The rows of those of the first n lines that are not what they were. */
  function ChangedRows(before: seq<Text>, after: seq<Text>, top: int, n: nat): seq<int>
    requires n <= |before| == |after|
  {
    if n == 0 then []
    else ChangedRows(before, after, top, n - 1) + if before[n - 1] != after[n - 1] then [top + n - 1] else []
  }

  lemma {:induction false} MaskedRows(s: Screen, before: seq<Text>, f: Frame, mask: seq<bool>, n: nat)
    requires n <= |before| == |f.lines| == |mask|
    requires forall i :: 0 <= i < |mask| ==> (mask[i] <==> before[i] != f.lines[i])
    ensures DrawRows(s, f.top, f.lines, mask, n).redrawn == s.redrawn + ChangedRows(before, f.lines, f.top, n)
  {
    hide Sanitised;
    if n > 0 {
      MaskedRows(s, before, f, mask, n - 1);
      Assoc(s.redrawn, ChangedRows(before, f.lines, f.top, n - 1), [f.top + n - 1]);
    }
    EmptyBack(s.redrawn, []);
    EmptyBack(s.redrawn + ChangedRows(before, f.lines, f.top, if n > 0 then n - 1 else 0), []);
  }

  lemma {:induction false} NoneChanged(lines: seq<Text>, top: int, n: nat)
    requires n <= |lines|
    ensures ChangedRows(lines, lines, top, n) == []
  {
    if n > 0 {
      NoneChanged(lines, top, n - 1);
    }
  }

  /** A frame of the same height at the same place, not forced, rewrites exactly the rows whose
      lines changed, each once and from top to bottom. */
  lemma OnlyChangedRows(qs: seq<Request>, q: Request, next: Request)
    requires q.RenderLines? && next.RenderLines? && !next.force
    requires AskedFrame(q).top == AskedFrame(next).top && |AskedFrame(q).lines| == |AskedFrame(next).lines|
    ensures var before, after := ApplyAll(START, qs + [q]), ApplyAll(START, qs + [q] + [next]);
            var f, g := AskedFrame(q), AskedFrame(next);
            after.screen.redrawn == before.screen.redrawn + ChangedRows(f.lines, g.lines, g.top, |g.lines|)
  {
    hide AskedFrame, DrawRows, InSync, Shows;
    var before, f, g := ApplyAll(START, qs + [q]), AskedFrame(q), AskedFrame(next);
    assert (qs + [q])[..|qs|] == qs && (qs + [q] + [next])[..|qs| + 1] == qs + [q];
    RunInSync(qs);
    RenderShows(ApplyAll(START, qs), f, q.force);
    assert before.cache == Drawn(f);
    MaskedRows(before.screen, f.lines, g, Changed(before.cache, g), |g.lines|);
    if f.lines == g.lines {
      NoneChanged(g.lines, g.top, |g.lines|);
      EmptyBack(before.screen.redrawn, []);
    }
  }

  /** Asking for the same frame again, not forced, changes nothing at all. */
  lemma SameAgain(qs: seq<Request>, q: Request)
    requires q.RenderLines?
    ensures ApplyAll(START, qs + [q] + [q.(force := false)]) == ApplyAll(START, qs + [q])
  {
    hide Render, InSync, Shows;
    assert (qs + [q])[..|qs|] == qs && (qs + [q] + [q.(force := false)])[..|qs| + 1] == qs + [q];
    RunInSync(qs);
    RenderShows(ApplyAll(START, qs), AskedFrame(q), q.force);
    NothingToDraw(ApplyAll(START, qs + [q]), AskedFrame(q), false);
  }

  // ---------------------------------------------------------------- line ends

  predicate Ends(t: Text) {
    exists i :: 0 <= i < |t| && (t[i] == 0x0d || t[i] == 0x0a)
  }

  /** Sanitising, by the first line end of a text: what is before it stays, CR LF, CR or LF
      becomes one space, and the same goes for what is behind it. */
  lemma {:induction false} SanitisedSplits(a: Text, b: Text)
    requires !Ends(a)
    ensures Sanitised(a) == a
    ensures Sanitised(a + [0x0d, 0x0a] + b) == a + [0x20] + Sanitised(b)
    ensures Sanitised(a + [0x0a] + b) == a + [0x20] + Sanitised(b)
    ensures b == [] || b[0] != 0x0a ==> Sanitised(a + [0x0d] + b) == a + [0x20] + Sanitised(b)
  {
    if a == [] {
      FirstSanitised(b);
      EmptyFront(a, [0x0d, 0x0a]);
      EmptyFront(a, [0x0a]);
      EmptyFront(a, [0x0d]);
      EmptyFront(a, [0x20]);
    } else {
      assert a[0] != 0x0d && a[0] != 0x0a;
      assert !Ends(a[1..]) by {
        assert forall i :: 0 <= i < |a[1..]| ==> a[1..][i] == a[i + 1];
      }
      SanitisedSplits(a[1..], b);
      StaysFirst(a, [0x0d, 0x0a], b);
      StaysFirst(a, [0x0a], b);
      StaysFirst(a, [0x0d], b);
      StaysFirst(a, [0x20], Sanitised(b));
      ConsAppend(a, []);
    }
  }

  lemma StaysFirst(a: Text, end: Text, b: Text)
    requires a != []
    ensures a + end + b == [a[0]] + (a[1..] + end + b)
    ensures a[0] != 0x0d && a[0] != 0x0a ==> Sanitised(a + end + b) == [a[0]] + Sanitised(a[1..] + end + b)
  {
    assert (a + end + b)[1..] == a[1..] + end + b;
  }

  lemma FirstSanitised(b: Text)
    ensures Sanitised([0x0d, 0x0a] + b) == [0x20] + Sanitised(b)
    ensures Sanitised([0x0a] + b) == [0x20] + Sanitised(b)
    ensures b == [] || b[0] != 0x0a ==> Sanitised([0x0d] + b) == [0x20] + Sanitised(b)
  {
    assert ([0x0d, 0x0a] + b)[2..] == b;
    assert ([0x0a] + b)[1..] == b;
    assert ([0x0d] + b)[1..] == b;
  }
}
