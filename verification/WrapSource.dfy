/**
 Preserve mode and source lines: where the text has a hard newline, and nowhere else, a line
 that starts a source line begins; and what is written around the bodies of the lines.
 */
module WrapSource {
  import opened Bytes
  import opened Seqs
  import opened Scanner
  import opened Locality
  import opened Sgr
  import opened WrapModel
  import opened WrapStyle
  import opened WrapKept
  import opened WrapTheorems

  /** The text cut at its hard newlines. */
  function SourceLines(ts: seq<Token>): (src: seq<seq<Token>>)
    ensures src != []
  {
    if ts == [] then [[]]
    else
      var n := |ts| - 1;
      if ts[n].Newline? then SourceLines(ts[..n]) + [[]] else Longer(SourceLines(ts[..n]), [ts[n]])
  }

  function Longer(groups: seq<seq<Token>>, more: seq<Token>): (r: seq<seq<Token>>)
    requires groups != []
    ensures |r| == |groups|
  {
    groups[..|groups| - 1] + [groups[|groups| - 1] + more]
  }

  /** The lines cut before each one that starts a source line, their bodies joined. */
  function Groups(lines: seq<Line>): (groups: seq<seq<Token>>)
    ensures lines != [] ==> groups != []
  {
    if lines == [] then []
    else
      var n := |lines| - 1;
      if n == 0 || lines[n].hard then Groups(lines[..n]) + [lines[n].body]
      else Longer(Groups(lines[..n]), lines[n].body)
  }

  // ---------------------------------------------------------------- one token

  ghost predicate Follows(w: Wrap, done: seq<Token>) {
    && Groups(w.lines + [CurrentLine(w, true)]) == SourceLines(done)
    && (w.lines == [] ==> w.hard)
    && (w.body == [] ==> w.hard && (w.lines != [] ==> w.open == Opening(w.active)))
    && w.active == RememberAll(IDLE, done)
    && NonEmpty(w.active.sgr) && NonEmpty(w.active.link)
  }

  lemma GroupsSnoc(lines: seq<Line>, l: Line)
    ensures Groups(lines + [l]) ==
            if lines == [] || l.hard then Groups(lines) + [l.body] else Longer(Groups(lines), l.body)
  {
    assert (lines + [l])[..|lines|] == lines;
  }

  lemma LongerTwice(groups: seq<seq<Token>>, a: seq<Token>, b: seq<Token>)
    requires groups != []
    ensures Longer(Longer(groups, a), b) == Longer(groups, a + b)
    ensures Longer(groups + [a], b) == groups + [a + b]
  {
    Assoc(groups[|groups| - 1], a, b);
    assert (groups + [a])[..|groups|] == groups;
    assert Longer(groups, a)[..|groups| - 1] == groups[..|groups| - 1];
  }

  /** Tokens added to the last line are added to the last group. */
  lemma BodyGrows(lines: seq<Line>, l: Line, l2: Line, piece: seq<Token>)
    requires l2.hard == l.hard && l2.body == l.body + piece && (lines == [] ==> l.hard)
    ensures Groups(lines + [l2]) == Longer(Groups(lines + [l]), piece)
  {
    GroupsSnoc(lines, l);
    GroupsSnoc(lines, l2);
    if lines == [] {
      EmptyFront(Groups(lines), [l.body]);
      EmptyFront(Groups(lines), [l2.body]);
    } else {
      LongerTwice(Groups(lines), l.body, piece);
    }
  }

  /** So are those on a line that a soft break starts. */
  lemma BreakGrows(lines: seq<Line>, l: Line, piece: seq<Token>)
    requires !l.hard && l.body == piece && lines != []
    ensures Groups(lines + [l]) == Longer(Groups(lines), piece)
  {
    GroupsSnoc(lines, l);
  }

  /** How a line is closed makes no difference. */
  lemma SameGroups(lines: seq<Line>, l: Line, l2: Line)
    requires l2.hard == l.hard && l2.body == l.body
    ensures Groups(lines + [l2]) == Groups(lines + [l])
  {
    GroupsSnoc(lines, l);
    GroupsSnoc(lines, l2);
  }

  lemma SourceSnoc(done: seq<Token>, t: Token)
    ensures SourceLines(done + [t]) ==
            if t.Newline? then SourceLines(done) + [[]] else Longer(SourceLines(done), [t])
  {
    assert (done + [t])[..|done|] == done;
  }

  lemma {:induction false} RememberSnoc(a: Active, ts: seq<Token>, t: Token)
    ensures var before := RememberAll(a, ts);
            RememberAll(a, ts + [t]) == if t.Escape? then Remember(before, t.bytes) else before
    decreases |ts|
  {
    hide Remember;
    if ts == [] {
      EmptyFront(ts, [t]);
      assert [t][1..] == [];
    } else {
      ConsAppend(ts, [t]);
      RememberSnoc(if ts[0].Escape? then Remember(a, ts[0].bytes) else a, ts[1..], t);
    }
  }

  lemma RememberNonEmpty(a: Active, e: Text)
    requires NonEmpty(a.sgr) && NonEmpty(a.link) && e != []
    ensures NonEmpty(Remember(a, e).sgr) && NonEmpty(Remember(a, e).link)
  {
    hide Resets, Underline, ReadLink, IsCsiM;
  }

  lemma PlaceFollows(w: Wrap, done: seq<Token>, t: Token)
    requires Follows(w, done) && t.bytes != []
    ensures Follows(PlaceToken(w, t), done + [t])
  {
    hide Groups, SourceLines, Remember, Longer, NonEmpty, Opening;
    var w2 := PlaceToken(w, t);
    SourceSnoc(done, t);
    RememberSnoc(IDLE, done, t);
    if t.Escape? {
      RememberNonEmpty(w.active, t.bytes);
    }
    SameGroups(w.lines, CurrentLine(w, true), CurrentLine(w, false));
    if w2.lines == w.lines {
      BodyGrows(w.lines, CurrentLine(w, true), CurrentLine(w2, true), [t]);
    } else if t.Newline? {
      GroupsSnoc(w2.lines, CurrentLine(w2, true));
    } else {
      EmptyFront([], [t]);
      BreakGrows(w2.lines, CurrentLine(w2, true), [t]);
    }
  }

  lemma {:induction false} PlaceAllFollows(w: Wrap, done: seq<Token>, ts: seq<Token>)
    requires Follows(w, done) && NonEmpty(ts)
    ensures Follows(PlaceTokens(w, ts), done + ts)
    decreases |ts|
  {
    hide Follows, PlaceToken;
    if ts == [] {
      EmptyBack(done, ts);
    } else {
      assert ts[0] in ts;
      PlaceFollows(w, done, ts[0]);
      PlaceAllFollows(PlaceToken(w, ts[0]), done + [ts[0]], ts[1..]);
      assert done + [ts[0]] + ts[1..] == done + ts;
    }
  }

  lemma InitFollows(target: nat)
    ensures Follows(Init(target), [])
  {
    var l := CurrentLine(Init(target), true);
    EmptyFront([], [l]);
    assert [l][..0] == [];
  }

  // ---------------------------------------------------------------- whole texts

  /** The last source line is not shown when it is empty and nothing is replayed on it. */
  predicate LastDropped(ts: seq<Token>) {
    var src := SourceLines(ts);
    |src| > 1 && src[|src| - 1] == [] && Opening(RememberAll(IDLE, ts)) == []
  }

  lemma LastGroup(lines: seq<Line>, l: Line)
    ensures var g := Groups(lines + [l]);
            && (l.body != [] ==> g[|g| - 1] != [])
            && (lines == [] ==> |g| == 1)
            && (lines != [] && l.hard && l.body == [] ==>
                  |g| > 1 && g[|g| - 1] == [] && g[..|g| - 1] == Groups(lines))
  {
    GroupsSnoc(lines, l);
  }

  lemma FinishFollows(w: Wrap, ts: seq<Token>)
    requires Follows(w, ts) && NonEmpty(w.open + w.body)
    ensures var src := SourceLines(ts);
            Groups(Finish(w).lines) == if LastDropped(ts) then src[..|src| - 1] else src
    ensures Finish(w).lines != [] && Finish(w).lines[0] == (w.lines + [CurrentLine(w, true)])[0]
  {
    hide Groups, SourceLines, Longer, Opening;
    LastGroup(w.lines, CurrentLine(w, true));
    FlatEmpty(w.open + w.body);
  }

  lemma {:induction false} FirstHard(w: Wrap, ts: seq<Token>)
    requires (w.lines + [CurrentLine(w, true)])[0].hard
    ensures var w2 := PlaceTokens(w, ts); (w2.lines + [CurrentLine(w2, true)])[0].hard
    decreases |ts|
  {
    hide Remember, Closing, Overflows;
    if ts != [] {
      FirstHard(PlaceToken(w, ts[0]), ts[1..]);
    }
  }

  /** Preserve mode breaks the lines of a text exactly where the text does and, within a source
      line, where it must: the lines from one that starts a source line to before the next hold
      that source line, whole and in order, empty ones too. Only the last source line is left
      out, exactly when it is empty, is not the only one, and nothing is replayed on it. */
  lemma PreserveSourceLines(u: Tables, text: Text, target: nat)
    ensures var ts := Tokens(u, true, text);
            var lines := WrapText(u, text, target, true);
            var src := SourceLines(ts);
            && lines != [] && lines[0].hard
            && Groups(lines) == if LastDropped(ts) then src[..|src| - 1] else src
  {
    hide Tokens, Follows, PlaceTokens, Finish, Groups, SourceLines;
    var ts := Tokens(u, true, text);
    TokensCover(u, true, text);
    InitFollows(target);
    PlaceAllFollows(Init(target), [], ts);
    EmptyFront([], ts);
    PlacedExact(u, target, text);
    FirstHard(Init(target), ts);
    FinishFollows(PlaceTokens(Init(target), ts), ts);
  }

  // ---------------------------------------------------------------- around the bodies

  /** What is remembered where a line starts is all that came before it. */
  function Opens(lines: seq<Line>): seq<Token> {
    if lines == [] then [] else Opening(RememberAll(IDLE, Held(lines)))
  }

  /** Line k starts with what is replayed of the lines before it and ends with what closes it,
      if it holds anything and is not the last one. */
  ghost predicate Framed(lines: seq<Line>, k: nat, last: bool)
    requires k < |lines|
  {
    var l := lines[k];
    && l.open == Opens(lines[..k])
    && l.close == if last || Flat(l.open + l.body) == [] then [] else Closing(RememberAll(IDLE, Held(lines[..k + 1])))
  }

  ghost predicate AllFramed(lines: seq<Line>) {
    forall k :: 0 <= k < |lines| ==> Framed(lines, k, false)
  }

  ghost predicate Around(w: Wrap) {
    && AllFramed(w.lines)
    && w.open == Opens(w.lines)
    && w.active == RememberAll(IDLE, HeldSoFar(w))
    && (w.active.underline ==> w.active.sgr != [])
  }

  lemma FramedGrows(lines: seq<Line>, l: Line, last: bool)
    requires AllFramed(lines) && Framed(lines + [l], |lines|, last)
    ensures forall k :: 0 <= k < |lines| ==> Framed(lines + [l], k, false)
  {
    var more := lines + [l];
    forall k | 0 <= k < |lines|
      ensures Framed(more, k, false)
    {
      assert Framed(lines, k, false);
      assert more[..k] == lines[..k] && more[..k + 1] == lines[..k + 1];
    }
  }

  lemma FramedLast(lines: seq<Line>, l: Line, last: bool)
    requires l.open == Opens(lines)
    requires l.close == if last || Flat(l.open + l.body) == [] then []
                        else Closing(RememberAll(IDLE, Held(lines) + l.body))
    ensures Framed(lines + [l], |lines|, last)
  {
    hide Closing, RememberAll, Flat, Opens, Held;
    var more := lines + [l];
    assert more[..|lines|] == lines && more[..|lines| + 1] == more;
    assert Held(more) == Held(lines) + l.body by {
      HeldSnoc(lines, l);
    }
  }

  lemma HeldSnoc(lines: seq<Line>, l: Line)
    ensures Held(lines + [l]) == Held(lines) + l.body
  {
    assert (lines + [l])[..|lines|] == lines;
  }

  lemma PushAround(w: Wrap, hard: bool)
    requires Around(w)
    ensures Around(PushLine(w, false, hard)) && PushLine(w, false, hard).lines != []
    ensures PushLine(w, false, hard).active == w.active
  {
    hide Held, Closing, Framed, Opening;
    var l := CurrentLine(w, false);
    FramedLast(w.lines, l, false);
    FramedGrows(w.lines, l, false);
    PushHeld(w, false, hard);
    EmptyBack(Held(w.lines + [l]), []);
  }

  lemma RememberUnderline(a: Active, e: Text)
    requires a.underline ==> a.sgr != []
    ensures Remember(a, e).underline ==> Remember(a, e).sgr != []
  {
    hide Resets, Underline, ReadLink, IsCsiM;
  }

  lemma AddAround(w: Wrap, t: Token, width: nat)
    requires Around(w)
    ensures var w2 := Add(w, [t], width);
            Around(w2.(active := if t.Escape? then Remember(w.active, t.bytes) else w.active))
  {
    hide Remember, Held, AllFramed, Opens;
    RememberSnoc(IDLE, HeldSoFar(w), t);
    Assoc(Held(w.lines), w.body, [t]);
    if t.Escape? {
      RememberUnderline(w.active, t.bytes);
    }
  }

  lemma PlaceAround(w: Wrap, t: Token)
    requires Around(w)
    ensures Around(PlaceToken(w, t))
  {
    hide Remember, AllFramed, Opens, CurrentLine, Held;
    if t.Newline? {
      PushAround(w, true);
    } else {
      PushAround(w, false);
      AddAround(w, t, TokenWidth(t));
      AddAround(SoftBreak(w), t, TokenWidth(t));
    }
  }

  lemma {:induction false} PlaceAllAround(w: Wrap, ts: seq<Token>)
    requires Around(w)
    ensures Around(PlaceTokens(w, ts))
    decreases |ts|
  {
    hide Around, PlaceToken;
    if ts != [] {
      PlaceAround(w, ts[0]);
      PlaceAllAround(PlaceToken(w, ts[0]), ts[1..]);
    }
  }

  lemma NothingOpen(w: Wrap)
    requires Around(w) && w.open + w.body == [] && w.lines != []
    ensures Closing(w.active) == [] && w.active == RememberAll(IDLE, Held(w.lines))
  {
    EmptyBack(Held(w.lines), w.body);
  }

  lemma LastUnclosed(lines: seq<Line>)
    requires lines != [] && AllFramed(lines) && Closing(RememberAll(IDLE, Held(lines))) == []
    ensures Framed(lines, |lines| - 1, true)
  {
    hide Closing, RememberAll, Flat, Opens, Held;
    var n := |lines| - 1;
    assert Framed(lines, n, false);
    assert lines[..n + 1] == lines;
  }

  lemma FinishFramed(w: Wrap)
    requires Around(w) && NonEmpty(w.open + w.body)
    ensures var lines := Finish(w).lines;
            && (forall k :: 0 <= k < |lines| - 1 ==> Framed(lines, k, false))
            && lines != [] && Framed(lines, |lines| - 1, true)
  {
    hide Held, Closing, Opening;
    FlatEmpty(w.open + w.body);
    if Flat(w.open + w.body) != [] || w.lines == [] {
      var l := CurrentLine(w, true);
      FramedLast(w.lines, l, true);
      FramedGrows(w.lines, l, true);
    } else {
      NothingOpen(w);
      LastUnclosed(w.lines);
    }
  }

  /** Preserve mode: each line starts with what the wrapper remembers of the lines before it and
      ends, unless it is empty or the last one, by switching off what is still on. */
  lemma PreserveFrames(u: Tables, text: Text, target: nat)
    ensures var lines := WrapText(u, text, target, true);
            && (forall k :: 0 <= k < |lines| - 1 ==> Framed(lines, k, false))
            && lines != [] && Framed(lines, |lines| - 1, true)
  {
    hide Tokens, Around, PlaceTokens, Finish, Framed;
    InitAround(target);
    PlaceAllAround(Init(target), Tokens(u, true, text));
    PlacedExact(u, target, text);
    FinishFramed(PlaceTokens(Init(target), Tokens(u, true, text)));
  }

  lemma InitAround(target: nat)
    ensures Around(Init(target))
  {
  }

  const UNDERLINE_ENDS := Escape([0x1b, 0x5b, 0x32, 0x34, 0x6d])
  const LINK_ENDS_BEL := Escape([0x1b, 0x5d, 0x38, 0x3b, 0x3b, 0x07])
  const LINK_ENDS_ST := Escape([0x1b, 0x5d, 0x38, 0x3b, 0x3b, 0x1b, 0x5c])

  ghost predicate OneLink(a: Active) {
    a.link == [] || (|a.link| == 1 && a.link[0].bytes != []
                     && (a.terminator == 0x07 <==> a.link[0].bytes[|a.link[0].bytes| - 1] == 0x07))
  }

  lemma {:induction false} KeepsOneLink(a: Active, ts: seq<Token>)
    requires OneLink(a)
    ensures OneLink(RememberAll(a, ts))
    decreases |ts|
  {
    hide Resets, Underline, IndexOf, OscEnd, IsCsiM;
    if ts != [] {
      KeepsOneLink(if ts[0].Escape? then Remember(a, ts[0].bytes) else a, ts[1..]);
    }
  }

  /** An open link is closed with the terminator that opened it. */
  lemma ClosedAlike(ts: seq<Token>)
    ensures var a := RememberAll(IDLE, ts);
            && |a.link| <= 1
            && (a.link == [] || a.link[0].bytes != [])
            && Closing(a) == (if a.underline then [UNDERLINE_ENDS] else [])
                             + (if a.link == [] then []
                                else if a.link[0].bytes[|a.link[0].bytes| - 1] == 0x07 then [LINK_ENDS_BEL]
                                else [LINK_ENDS_ST])
  {
    hide RememberAll;
    KeepsOneLink(IDLE, ts);
  }
}
