/**
 What the lines hold of the text: everything but hard newlines in preserve mode,
 everything but whitespace in word mode, in order.
 */
module WrapKept {
  import opened Seqs
  import opened Scanner
  import opened Glue
  import opened Sgr
  import opened WrapModel
  import opened WrapStyle

  /** The lines without the sequences the wrapper put before and after them. */
  function Held(lines: seq<Line>): seq<Token> {
    if lines == [] then [] else Held(lines[..|lines| - 1]) + lines[|lines| - 1].body
  }

  function WithoutNewlines(ts: seq<Token>): seq<Token> {
    if ts == [] then []
    else (if ts[0].Newline? then [] else [ts[0]]) + WithoutNewlines(ts[1..])
  }

  /** Escapes, and clusters that do not start with a space or a tab. */
  predicate IsKept(t: Token) {
    t.Escape? || (t.Glyph? && !IsWhitespace(t))
  }

  function Kept(ts: seq<Token>): seq<Token> {
    if ts == [] then [] else (if IsKept(ts[0]) then [ts[0]] else []) + Kept(ts[1..])
  }

  lemma {:induction false} KeptAppend(a: seq<Token>, b: seq<Token>)
    ensures Kept(a + b) == Kept(a) + Kept(b)
  {
    hide IsKept;
    if a == [] {
      EmptyFront(a, b);
    } else {
      ConsAppend(a, b);
      KeptAppend(a[1..], b);
      Assoc(if IsKept(a[0]) then [a[0]] else [], Kept(a[1..]), Kept(b));
    }
  }

  function HeldSoFar(w: Wrap): seq<Token> {
    Held(w.lines) + w.body
  }

  lemma PushHeld(w: Wrap, final: bool, hard: bool)
    ensures HeldSoFar(PushLine(w, final, hard)) == HeldSoFar(w)
  {
    var lines := PushLine(w, final, hard).lines;
    assert lines[..|lines| - 1] == w.lines;
    EmptyBack(Held(lines), []);
  }

  lemma AppendPieceHeld(w: Wrap, piece: seq<Token>, width: nat)
    ensures HeldSoFar(AppendPiece(w, piece, width)) == HeldSoFar(w) + piece
  {
    hide CurrentLine, Held;
    var w1 := if width > 0 && Overflows(w, width) then SoftBreak(w) else w;
    PushHeld(w, false, false);
    Assoc(Held(w1.lines), w1.body, piece);
  }

  lemma {:induction false} PlaceTokensHeld(w: Wrap, ts: seq<Token>)
    ensures HeldSoFar(PlaceTokens(w, ts)) == HeldSoFar(w) + WithoutNewlines(ts)
    decreases |ts|
  {
    hide HeldSoFar, Remember, CurrentLine, AppendPiece, Overflows;
    if ts == [] {
      EmptyBack(HeldSoFar(w), []);
    } else {
      PlaceTokenHeld(w, ts[0]);
      PlaceTokensHeld(PlaceToken(w, ts[0]), ts[1..]);
      var one := if ts[0].Newline? then [] else [ts[0]];
      Assoc(HeldSoFar(w), one, WithoutNewlines(ts[1..]));
    }
  }

  lemma PlaceTokenHeld(w: Wrap, t: Token)
    ensures HeldSoFar(PlaceToken(w, t)) == HeldSoFar(w) + (if t.Newline? then [] else [t])
  {
    match t
    case Escape(e) => AppendPieceHeld(w, [t], 0);
    case Newline(_) =>
      PushHeld(w, false, true);
      EmptyBack(HeldSoFar(w), []);
    case Glyph(_, width) => AppendPieceHeld(w, [t], width);
  }

  lemma FinishHeld(w: Wrap)
    requires NonEmpty(w.open + w.body)
    ensures Held(Finish(w).lines) == HeldSoFar(w)
  {
    PushHeld(w, true, false);
    EmptyBack(Held(PushLine(w, true, false).lines), []);
    if Flat(w.open + w.body) == [] && w.lines != [] {
      FlatEmpty(w.open + w.body);
      EmptyBack(Held(w.lines), []);
    }
  }

  // ---------------------------------------------------------------- word mode

  lemma {:induction false} BlanksNotKept(k: nat)
    ensures Kept(Blanks(k)) == []
  {
    if k > 0 {
      BlanksNotKept(k - 1);
      assert Blanks(k)[1..] == Blanks(k - 1);
    }
  }

  lemma FlushSpaceKept(w: Wrap)
    ensures Kept(HeldSoFar(FlushSpace(w))) == Kept(HeldSoFar(w)) && FlushSpace(w).word == w.word
  {
    hide CurrentLine, Held;
    PushHeld(w, false, false);
    var k := SpaceWidth(w);
    Assoc(Held(w.lines), w.body, Blanks(k));
    KeptAppend(Held(w.lines) + w.body, Blanks(k));
    BlanksNotKept(k);
    EmptyBack(Kept(HeldSoFar(w)), []);
  }

  lemma {:induction false} SameWithoutNewlines(ts: seq<Token>)
    requires forall t :: t in ts ==> !t.Newline?
    ensures WithoutNewlines(ts) == ts
  {
    if ts != [] {
      assert ts[0] in ts;
      SameWithoutNewlines(ts[1..]);
    }
  }

  lemma FlushWordKept(w: Wrap)
    requires forall t :: t in w.word ==> !t.Newline?
    ensures Kept(HeldSoFar(FlushWord(w))) == Kept(HeldSoFar(w)) + Kept(w.word)
    ensures FlushWord(w).word == []
  {
    hide FlushSpace, AppendPiece, RememberText, Kept;
    if w.word == [] {
      NothingKept();
      EmptyBack(Kept(HeldSoFar(w)), []);
    } else {
      var w1 := FlushSpace(w);
      FlushSpaceKept(w);
      AppendPieceHeld(w1, w1.word, w1.wordWidth);
      PlaceTokensHeld(w1, w1.word);
      SameWithoutNewlines(w1.word);
      KeptAppend(HeldSoFar(w1), w1.word);
    }
  }

  lemma NothingKept()
    ensures Kept([]) == []
  {
  }

  lemma StepWordKept(w: Wrap, t: Token)
    requires forall t :: t in w.word ==> !t.Newline?
    ensures var w2 := StepWord(w, t);
            && Kept(HeldSoFar(w2)) + Kept(w2.word) == Kept(HeldSoFar(w)) + Kept(w.word) + Kept([t])
            && forall t :: t in w2.word ==> !t.Newline?
  {
    hide FlushWord, CurrentLine;
    assert [t][1..] == [];
    var before := Kept(HeldSoFar(w)) + Kept(w.word);
    if t.Newline? || IsWhitespace(t) {
      FlushWordKept(w);
      PushHeld(FlushWord(w), false, true);
      EmptyBack(before, []);
    } else {
      KeptAppend(w.word, [t]);
      Assoc(Kept(HeldSoFar(w)), Kept(w.word), Kept([t]));
    }
  }

  lemma {:induction false} StepWordsKept(w: Wrap, ts: seq<Token>)
    requires forall t :: t in w.word ==> !t.Newline?
    ensures var w2 := StepWords(w, ts);
            && Kept(HeldSoFar(w2)) + Kept(w2.word) == Kept(HeldSoFar(w)) + Kept(w.word) + Kept(ts)
            && forall t :: t in w2.word ==> !t.Newline?
    decreases |ts|
  {
    hide StepWord, HeldSoFar, IsKept;
    var before := Kept(HeldSoFar(w)) + Kept(w.word);
    if ts == [] {
      EmptyBack(before, Kept(ts));
    } else {
      StepWordKept(w, ts[0]);
      StepWordsKept(StepWord(w, ts[0]), ts[1..]);
      assert ts == [ts[0]] + ts[1..];
      KeptAppend([ts[0]], ts[1..]);
      Assoc(before, Kept([ts[0]]), Kept(ts[1..]));
    }
  }
}
