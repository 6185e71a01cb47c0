/**
 Which sequences leave double underline on past a line end: the wrapper's flag knows the
 single underline only.
 */
module WrapLeaks {
  import opened Bytes
  import opened Seqs
  import opened Scanner
  import opened Locality
  import opened Glue
  import opened Swallow
  import opened Sgr
  import opened SgrTracking
  import opened SgrLimits
  import opened WrapModel
  import opened WrapExact
  import opened WrapWidth
  import opened WrapWordsWidth
  import opened WrapClean
  import opened WrapTheorems

  /** The escapes of a text are ordinary, and those other than e close what they open. */
  ghost predicate OthersClose(ts: seq<Token>, e: Text, preserve: bool) {
    && (forall t :: t in ts && t.Escape? ==> Ordinary(t.bytes) && (t.bytes == e || Closes(t.bytes)))
    && (preserve || NoOpenEscape(ts))
  }

  /** e never leaves an underline of either kind on at a line end. */
  ghost predicate NeverLeaks(u: Tables, e: Text, preserve: bool) {
    forall text: Text, target: nat :: OthersClose(Tokens(u, true, text), e, preserve) ==>
                                        AllClean(WrapText(u, text, target, preserve), true)
  }

  /** e, then two letters, to be wrapped at width one. */
  function Leaking(e: Text): seq<Token> {
    [Escape(e)] + [LETTER_A] + [LETTER_B]
  }

  lemma LeakingScans(u: Tables, e: Text)
    requires IsCsiM(e) && IsEscape(e)
    ensures Tokens(u, true, Flat(Leaking(e))) == Leaking(e)
  {
    hide Shut, Exact;
    CsiShut(u, e);
    var letters := [LETTER_A] + [LETTER_B];
    LettersExact(u, letters);
    AfterEscapes(u, [Escape(e)], letters);
    Assoc([Escape(e)], [LETTER_A], [LETTER_B]);
    ExactTokens(u, true, Leaking(e));
  }

  lemma LeakingWord(e: Text)
    ensures NoWhitespace(Leaking(e)) && NoNewlines(Leaking(e)) && Width(Leaking(e)) == 2
  {
    WidthAppend([Escape(e)], [LETTER_A]);
    WidthAppend([Escape(e)] + [LETTER_A], [LETTER_B]);
    OneToken(Escape(e));
    OneToken(LETTER_A);
    OneToken(LETTER_B);
  }

  lemma LeakingPlaced(e: Text)
    ensures PlaceTokens(Init(1), Leaking(e)) ==
            PlaceToken(PlaceToken(PlaceToken(Init(1), Escape(e)), LETTER_A), LETTER_B)
  {
    hide PlaceToken;
    var w := PlaceToken(Init(1), Escape(e));
    PlaceAppend(Init(1), [Escape(e)], [LETTER_A]);
    PlaceAppend(Init(1), [Escape(e)] + [LETTER_A], [LETTER_B]);
    PlaceOne(Init(1), Escape(e));
    PlaceOne(w, LETTER_A);
    PlaceOne(PlaceToken(w, LETTER_A), LETTER_B);
  }

  /** The first line ends after the first letter, with nothing to close. */
  lemma FirstLine(e: Text)
    requires e != [] && !Remember(IDLE, e).underline && Remember(IDLE, e).link == []
    ensures var lines := WrapPreserve(1, Leaking(e));
            |lines| == 2 && lines[0] == Line([], [Escape(e)] + [LETTER_A], [], true)
  {
    hide Remember;
    LeakingPlaced(e);
    var w1 := PlaceToken(Init(1), Escape(e));
    assert w1.body == [Escape(e)];
    var w2 := PlaceToken(w1, LETTER_A);
    assert w2.body == [Escape(e)] + [LETTER_A] && w2.open + w2.body == w2.body;
    FlatHead(w2.body);
    var w3 := PlaceToken(w2, LETTER_B);
    assert w3.lines == [CurrentLine(w2, false)];
    NonEmptyEnd(w3);
  }

  lemma NonEmptyEnd(w: Wrap)
    requires w.body == [LETTER_B]
    ensures |Finish(w).lines| == |w.lines| + 1 && Finish(w).lines[..|w.lines|] == w.lines
  {
    FlatAppend(w.open, w.body);
    FlatHead(w.body);
  }

  lemma LeaksDouble(e: Text)
    requires !Closes(e)
    ensures IsCsiM(e) && !AllClean(WrapPreserve(1, Leaking(e)), true)
  {
    hide ApplyPen, Remember, WrapPreserve;
    NotCsiIgnored(e);
    FirstLine(e);
    var lines := WrapPreserve(1, Leaking(e));
    assert LineTokens(lines[0]) == [Escape(e)] + [LETTER_A];
    StyleAppend(PLAIN, [Escape(e)], [LETTER_A]);
    StyleOne(PLAIN, Escape(e));
    StyleOne(Apply(PLAIN, e), LETTER_A);
    assert !CleanEnd(lines[0], true);
  }

  lemma NotCsiIgnored(e: Text)
    ensures !IsCsiM(e) ==> ApplyPen(PLAIN_PEN, e) == PLAIN_PEN
    ensures IsCsiM(e) ==> Remember(IDLE, e).link == []
  {
  }

  lemma LeakingOthers(e: Text, preserve: bool)
    requires Ordinary(e)
    ensures OthersClose(Leaking(e), e, preserve)
  {
    hide Ordinary, Closes;
    forall t | t in Leaking(e)
      ensures !OpensEscape(t) && (t.Escape? ==> t.bytes == e)
    {
    }
  }

  /** The exact condition, in each mode: an ordinary sequence never leaves an underline on
      at a line end, in texts whose other sequences close what they open, if and only if it
      closes what it opens itself. */
  lemma NeverLeaksIff(u: Tables, e: Text, preserve: bool)
    requires IsEscape(e) && Ordinary(e)
    ensures NeverLeaks(u, e, preserve) <==> Closes(e)
  {
    hide AllClean, Closes, Ordinary, Leaking, WrapWords, WrapPreserve, NoOpenEscape, OthersClose, Tokens;
    if Closes(e) {
      forall text: Text, target: nat | OthersClose(Tokens(u, true, text), e, preserve)
        ensures AllClean(WrapText(u, text, target, preserve), true)
      {
        AllClose(Tokens(u, true, text), e, preserve);
        LinesEndClean(u, text, target, preserve, true);
      }
    } else {
      LeaksDouble(e);
      LeakingScans(u, e);
      LeakingOthers(e, preserve);
      LeakingWord(e);
      WideWord(1, Leaking(e));
      assert !AllClean(WrapText(u, Flat(Leaking(e)), 1, preserve), true);
    }
  }

  lemma AllClose(ts: seq<Token>, e: Text, preserve: bool)
    requires OthersClose(ts, e, preserve) && Closes(e)
    ensures AllOrdinary(ts, true) && (preserve || NoOpenEscape(ts))
  {
    hide Ordinary, Closes, OpensEscape;
  }

  /** The sequence for double underline alone. */
  const DOUBLE: Text := Single(['2' as int, '1' as int])

  lemma DoubleDoesNotClose()
    ensures IsEscape(DOUBLE) && Ordinary(DOUBLE) && !Closes(DOUBLE)
  {
    var ds := ['2' as int, '1' as int];
    assert ds[..1] == ['2' as int] && ds[..1][..0] == [];
    assert Value(ds[..1]) == 2 && Value(ds) == 21;
    SingleIsEscape(ds);
    SingleApplies(ds, 21, PLAIN_PEN);
    assert Body(DOUBLE) == ds;
    assert DigitsLen(ds) == 2;
    UnderlineNothing(false);
    assert ds[2..] == [];
  }
}
