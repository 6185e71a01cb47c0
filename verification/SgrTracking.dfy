/**
 Ordinary SGR sequences, and why the wrapper's underline flag follows the terminal on
 them.
 */
module SgrTracking {
  import opened Bytes
  import opened Seqs
  import opened Scanner
  import opened Sgr

  /** Numbers separated by single semicolons: no empty parameter, nothing else. */
  predicate Proper(b: Text)
    decreases |b|
  {
    var n := DigitsLen(b);
    n > 0 && (n == |b| || (b[n] == ';' as int && Proper(b[n + 1..])))
  }

  /** The text after the first number and its semicolon. */
  function Rest(b: Text): Text
    requires Proper(b)
  {
    if DigitsLen(b) == |b| then [] else b[DigitsLen(b) + 1..]
  }

  predicate ProperOrEmpty(b: Text) {
    b == [] || Proper(b)
  }

  function Numbers(b: Text): seq<nat>
    requires ProperOrEmpty(b)
    decreases |b|
  {
    if b == [] then [] else [Value(b[..DigitsLen(b)])] + Numbers(Rest(b))
  }

  predicate AllZero(vs: seq<nat>) {
    vs == [] || (vs[0] == 0 && AllZero(vs[1..]))
  }

  /** A pure reset, or a sequence without zero or empty parameters. */
  predicate Ordinary(e: Text) {
    IsCsiM(e) ==>
      || (IsSgr(e) && AllZero(Values(Fields([], Body(e)))))
      || (Proper(Body(e)) && !ZeroIn(Fields([], Body(e))))
  }

  lemma {:induction false} FieldsDigits(cur: Text, b: Text, n: nat)
    requires n <= |b| && (forall k :: 0 <= k < n ==> IsDigit(b[k]))
    requires n < |b| ==> !IsDigit(b[n])
    ensures Fields(cur, b) == [cur + b[..n]] + (if n == |b| then [] else Fields([], b[n + 1..]))
    decreases n
  {
    if n == 0 {
      EmptyBack(cur, b[..n]);
    } else {
      FieldsDigits(cur + [b[0]], b[1..], n - 1);
      assert cur + [b[0]] + b[1..][..n - 1] == cur + b[..n];
      if n < |b| {
        assert b[1..][n..] == b[n + 1..];
      }
    }
  }

  lemma {:induction false} ProperFields(b: Text)
    requires Proper(b)
    ensures Values(Fields([], b)) == Numbers(b)
    decreases |b|
  {
    var n := DigitsLen(b);
    FieldsDigits([], b, n);
    EmptyFront([], b[..n]);
    if n < |b| {
      ProperFields(b[n + 1..]);
      assert ([b[..n]] + Fields([], b[n + 1..]))[1..] == Fields([], b[n + 1..]);
    } else {
      assert ([b[..n]] + [])[1..] == [];
    }
  }

  lemma {:induction false} ProperIsSgr(b: Text)
    requires Proper(b)
    ensures forall k :: 0 <= k < |b| ==> IsDigit(b[k]) || b[k] == ';' as int
    decreases |b|
  {
    var n := DigitsLen(b);
    if n < |b| {
      ProperIsSgr(b[n + 1..]);
      forall k | 0 <= k < |b|
        ensures IsDigit(b[k]) || b[k] == ';' as int
      {
        if k > n {
          assert b[k] == b[n + 1..][k - n - 1];
        }
      }
    }
  }

  // ---------------------------------------------------------------- resets

  lemma {:induction false} ZerosClear(p: Pen, vs: seq<nat>)
    requires AllZero(vs) && vs != []
    ensures ApplyValues(p, vs) == PLAIN_PEN
    decreases |vs|
  {
    if |vs| > 1 {
      ZerosClear(PLAIN_PEN, vs[1..]);
    }
  }

  /** On ordinary sequences the wrapper's notion of a reset is the terminal's. */
  lemma OrdinaryFaithful(e: Text)
    requires Ordinary(e)
    ensures Faithful(e)
  {
    if Resets(e) {
      if |e| == 3 {
        assert Body(e) == [];
      }
      forall p: Pen
        ensures ApplyPen(p, e) == PLAIN_PEN
      {
        ZerosClear(p, Values(Fields([], Body(e))));
      }
    }
  }

  // ---------------------------------------------------------------- the underline flag

  lemma UnderlineSkips(on: bool, b: Text)
    requires b != [] && !IsDigit(b[0])
    ensures Underline(on, b) == Underline(on, b[1..])
  {
  }

  /** After a number comes nothing, or a semicolon that is skipped. */
  lemma UnderlineAfterNumber(on: bool, b: Text)
    requires Proper(b)
    ensures Underline(on, b[DigitsLen(b)..]) == Underline(on, Rest(b))
  {
    var n := DigitsLen(b);
    if n < |b| {
      UnderlineSkips(on, b[n..]);
      assert b[n..][1..] == b[n + 1..];
    }
  }

  function DropNumbers(b: Text, k: nat): (r: Text)
    requires ProperOrEmpty(b)
    ensures ProperOrEmpty(r) && |r| <= |b|
    decreases k
  {
    if k == 0 || b == [] then b else DropNumbers(Rest(b), k - 1)
  }

  lemma SkipOne(b: Text, k: nat)
    requires Proper(b) && k > 0
    ensures Rest(b) == [] ==> SkipNumbers(b[DigitsLen(b)..], k) == []
    ensures Rest(b) != [] ==>
              && Proper(Rest(b))
              && SkipNumbers(b[DigitsLen(b)..], k) == SkipNumbers(Rest(b)[DigitsLen(Rest(b))..], k - 1)
  {
    var n := DigitsLen(b);
    if n < |b| {
      assert b[n..][1..] == Rest(b);
      assert DropSemicolon(b[n..]) == Rest(b);
    }
  }

  lemma {:induction false} SkipNumbersDrops(on: bool, b: Text, k: nat)
    requires Proper(b)
    ensures Underline(on, SkipNumbers(b[DigitsLen(b)..], k)) == Underline(on, DropNumbers(Rest(b), k))
    decreases k
  {
    hide Underline, Proper, DigitsLen, Rest;
    if k == 0 {
      UnderlineAfterNumber(on, b);
    } else {
      SkipOne(b, k);
      if Rest(b) != [] {
        SkipNumbersDrops(on, Rest(b), k - 1);
      }
    }
  }

  lemma DropNumbersStep(b: Text, k: nat)
    requires Proper(b) && k > 0
    ensures ProperOrEmpty(Rest(b)) && DropNumbers(b, k) == DropNumbers(Rest(b), k - 1)
  {
  }

  lemma {:induction false} DropNumbersSuffix(b: Text, k: nat)
    requires ProperOrEmpty(b)
    ensures k <= |Numbers(b)| ==> Numbers(DropNumbers(b, k)) == Numbers(b)[k..]
    ensures k > |Numbers(b)| ==> DropNumbers(b, k) == []
    decreases k
  {
    hide DigitsLen, Value, Numbers, Rest;
    if k == 0 {
    } else if b == [] {
      NoNumbers();
    } else {
      DropNumbersStep(b, k);
      NumbersTail(b);
      hide Proper, DropNumbers;
      var r, ns := Rest(b), Numbers(b);
      DropNumbersSuffix(r, k - 1);
      if k <= |ns| {
        DropDrop(ns, 1, k - 1);
      }
    }
  }

  lemma NoNumbers()
    ensures Numbers([]) == []
  {
  }

  lemma NumbersTail(b: Text)
    requires Proper(b)
    ensures ProperOrEmpty(Rest(b)) && Numbers(b) != [] && Numbers(b)[1..] == Numbers(Rest(b))
    ensures Numbers(b)[0] == Value(b[..DigitsLen(b)])
  {
  }

  lemma SkipColorDrops(on: bool, b: Text)
    requires Proper(b)
    ensures Rest(b) == [] ==> Underline(on, SkipColor(b[DigitsLen(b)..])) == on
    ensures Rest(b) != [] ==>
              var mode := Value(Rest(b)[..DigitsLen(Rest(b))]);
              Underline(on, SkipColor(b[DigitsLen(b)..])) == Underline(on, DropNumbers(Rest(Rest(b)), ColorParts(mode)))
  {
    var n := DigitsLen(b);
    if n < |b| {
      assert b[n..][1..] == Rest(b);
      var mode := Value(Rest(b)[..DigitsLen(Rest(b))]);
      SkipNumbersDrops(on, Rest(b), ColorParts(mode));
    }
  }

  lemma AttributeUnderlines(p: Pen, v: nat)
    ensures (Underlined in SetAttribute(p, v).on) == UnderlineBy(Underlined in p.on, v)
  {
  }

  lemma {:induction false} UnderlineTracks(p: Pen, b: Text)
    requires ProperOrEmpty(b)
    ensures Underline(Underlined in p.on, b) == (Underlined in ApplyValues(p, Numbers(b)).on)
    decreases |b|
  {
    hide SetAttribute;
    if b != [] {
      var on := Underlined in p.on;
      var n := DigitsLen(b);
      var code := Value(b[..n]);
      var vs := Numbers(b);
      assert vs[1..] == Numbers(Rest(b));
      if code == 38 || code == 48 {
        SkipColorDrops(on, b);
        if Rest(b) != [] {
          ColorTracks(p, b, vs);
        }
      } else {
        AttributeUnderlines(p, code);
        UnderlineAfterNumber(UnderlineBy(on, code), b);
        UnderlineTracks(SetAttribute(p, code), Rest(b));
      }
    }
  }

  lemma ColorTracks(p: Pen, b: Text, vs: seq<nat>)
    requires Proper(b) && vs == Numbers(b) && (vs[0] == 38 || vs[0] == 48) && Rest(b) != []
    ensures var mode := Value(Rest(b)[..DigitsLen(Rest(b))]);
            Underline(Underlined in p.on, DropNumbers(Rest(Rest(b)), ColorParts(mode)))
            == (Underlined in ApplyValues(p, vs).on)
    decreases |b|, 0
  {
    hide SetAttribute, SetColor, Proper, DigitsLen, Value, Numbers, SkipNumbers, ApplyValues;
    NumbersTail(b);
    NumbersTail(Rest(b));
    var mode := vs[1];
    var k := ColorParts(mode);
    var left := DropNumbers(Rest(Rest(b)), k);
    DropNumbersSuffix(Rest(Rest(b)), k);
    assert vs[2..] == vs[1..][1..];
    if |vs| < 2 + k {
      UnderlineNothing(Underlined in p.on);
      ShortColor(p, vs);
    } else {
      assert vs[2..][k..] == vs[2 + k..];
      var p2 := ColorValues(p, vs);
      UnderlineTracks(p2, left);
    }
  }

  lemma UnderlineNothing(on: bool)
    ensures Underline(on, []) == on
  {
  }

  lemma ShortColor(p: Pen, vs: seq<nat>)
    requires 2 <= |vs| < 2 + ColorParts(vs[1]) && (vs[0] == 38 || vs[0] == 48)
    ensures ApplyValues(p, vs) == p
  {
  }

  lemma ColorValues(p: Pen, vs: seq<nat>) returns (p2: Pen)
    requires |vs| >= 2 && |vs| >= 2 + ColorParts(vs[1]) && (vs[0] == 38 || vs[0] == 48)
    ensures ApplyValues(p, vs) == ApplyValues(p2, vs[2 + ColorParts(vs[1])..]) && p2.on == p.on
  {
    p2 := if vs[1] == 5 then SetColor(p, vs[0], Indexed(vs[2]))
    else if vs[1] == 2 then SetColor(p, vs[0], Rgb(vs[2], vs[3], vs[4])) else p;
  }

  /** Wherever the terminal underlines, the wrapper knows it. */
  lemma OrdinaryTracks(a: Active, p: Pen, e: Text)
    requires Ordinary(e) && (Underlined in p.on ==> a.underline)
    ensures Underlined in ApplyPen(p, e).on ==> Remember(a, e).underline
  {
    if IsCsiM(e) {
      if AllZero(Values(Fields([], Body(e)))) && IsSgr(e) {
        ZerosClear(p, Values(Fields([], Body(e))));
      } else {
        ProperIsSgr(Body(e));
        ProperFields(Body(e));
        UnderlineTracks(p, Body(e));
        if a.underline && Underlined !in p.on {
          UnderlineMonotone(Body(e));
        }
      }
    }
  }

  /** An ordinary sequence that is not made of empty parameters alone, or is ESC [ m. */
  predicate Regular(e: Text) {
    IsCsiM(e) ==>
      || (IsSgr(e) && AllZero(Values(Fields([], Body(e)))) && Resets(e))
      || (Proper(Body(e)) && !ZeroIn(Fields([], Body(e))))
  }

  lemma RegularTracks(a: Active, p: Pen, e: Text)
    requires Regular(e) && a.underline == (Underlined in p.on)
    ensures Remember(a, e).underline == (Underlined in ApplyPen(p, e).on)
  {
    if IsCsiM(e) {
      if AllZero(Values(Fields([], Body(e)))) && IsSgr(e) && Resets(e) {
        ZerosClear(p, Values(Fields([], Body(e))));
      } else {
        ProperIsSgr(Body(e));
        ProperFields(Body(e));
        UnderlineTracks(p, Body(e));
      }
    }
  }

  /** On regular sequences the flag is set exactly while the terminal underlines. */
  lemma {:induction false} FlagIsUnderline(a: Active, st: Style, ts: seq<Token>)
    requires forall t :: t in ts && t.Escape? ==> Regular(t.bytes)
    requires a.underline == (Underlined in st.pen.on)
    ensures RememberAll(a, ts).underline == (Underlined in StyleAfter(st, ts).pen.on)
    decreases |ts|
  {
    hide Regular, Remember, ApplyPen, ApplyLink;
    if ts != [] {
      assert ts[0] in ts;
      if ts[0].Escape? {
        RegularTracks(a, st.pen, ts[0].bytes);
        FlagIsUnderline(Remember(a, ts[0].bytes), Apply(st, ts[0].bytes), ts[1..]);
      } else {
        FlagIsUnderline(a, st, ts[1..]);
      }
    }
  }

  lemma {:induction false} UnderlineMonotone(b: Text)
    ensures Underline(false, b) ==> Underline(true, b)
    decreases |b|
  {
    if b != [] {
      if !IsDigit(b[0]) {
        UnderlineMonotone(b[1..]);
      } else {
        var n := DigitsLen(b);
        var code := Value(b[..n]);
        if code == 38 || code == 48 {
          UnderlineMonotone(SkipColor(b[n..]));
        } else {
          UnderlineMonotone(b[n..]);
        }
      }
    }
  }

  // ---------------------------------------------------------------- double underline

  /** From a plain start, e does not leave double underline on where the wrapper has no
      underline to close. */
  predicate Closes(e: Text) {
    Double in ApplyPen(PLAIN_PEN, e).on ==> Remember(IDLE, e).underline
  }

  /** The pens after the same parameters from a plain pen, from p, and from q, which has
      what p has and an underline if p has a double one. */
  ghost predicate Nested(z: Pen, p: Pen, q: Pen) {
    z.on <= p.on <= q.on && (Double in q.on && Double !in z.on ==> Underlined in q.on)
  }

  lemma SetNested(z: Pen, p: Pen, q: Pen, v: nat)
    requires Nested(z, p, q)
    ensures Nested(SetAttribute(z, v), SetAttribute(p, v), SetAttribute(q, v))
  {
  }

  lemma {:induction false} ApplyNested(z: Pen, p: Pen, q: Pen, vs: seq<nat>)
    requires Nested(z, p, q)
    ensures Nested(ApplyValues(z, vs), ApplyValues(p, vs), ApplyValues(q, vs))
    decreases |vs|
  {
    hide Nested, SetAttribute, SetColor;
    if vs == [] || (|vs| == 1 && (vs[0] == 38 || vs[0] == 48)) {
    } else if vs[0] == 38 || vs[0] == 48 {
      if vs[1] == 5 && |vs| >= 3 {
        var c := Indexed(vs[2]);
        ColorNested(z, p, q, vs[0], c);
        ApplyNested(SetColor(z, vs[0], c), SetColor(p, vs[0], c), SetColor(q, vs[0], c), vs[3..]);
      } else if vs[1] == 2 && |vs| >= 5 {
        var c := Rgb(vs[2], vs[3], vs[4]);
        ColorNested(z, p, q, vs[0], c);
        ApplyNested(SetColor(z, vs[0], c), SetColor(p, vs[0], c), SetColor(q, vs[0], c), vs[5..]);
      } else if vs[1] != 5 && vs[1] != 2 {
        ApplyNested(z, p, q, vs[2..]);
      }
    } else {
      SetNested(z, p, q, vs[0]);
      ApplyNested(SetAttribute(z, vs[0]), SetAttribute(p, vs[0]), SetAttribute(q, vs[0]), vs[1..]);
    }
  }

  lemma ColorNested(z: Pen, p: Pen, q: Pen, v: nat, c: Color)
    requires Nested(z, p, q)
    ensures Nested(SetColor(z, v, c), SetColor(p, v, c), SetColor(q, v, c))
  {
  }

  /** If e closes what it opens from a plain start, it does so from any start at which the
      wrapper has an underline to close wherever the terminal has one of either kind. */
  lemma DoubleTracks(a: Active, p: Pen, e: Text)
    requires Ordinary(e) && Closes(e)
    requires Underlined in p.on || Double in p.on ==> a.underline
    ensures Double in ApplyPen(p, e).on ==> Remember(a, e).underline
  {
    if IsCsiM(e) {
      if AllZero(Values(Fields([], Body(e)))) && IsSgr(e) {
        ZerosClear(p, Values(Fields([], Body(e))));
      } else {
        ProperIsSgr(Body(e));
        ProperFields(Body(e));
        ProperDouble(a, p, Body(e));
      }
    }
  }

  lemma ProperDouble(a: Active, p: Pen, b: Text)
    requires Proper(b) && (Underlined in p.on || Double in p.on ==> a.underline)
    requires Double in ApplyValues(PLAIN_PEN, Numbers(b)).on ==> Underline(false, b)
    ensures Double in ApplyValues(p, Numbers(b)).on ==> Underline(a.underline, b)
  {
    var q := if a.underline then p.(on := p.on + {Underlined}) else p;
    ApplyNested(PLAIN_PEN, p, q, Numbers(b));
    UnderlineTracks(q, b);
    UnderlineTracks(PLAIN_PEN, b);
  }
}
