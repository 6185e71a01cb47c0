/**
 From UTF-8 to UTF-16, malformed bytes becoming U+FFFD.
 */
module Utf16 {
  import opened Bytes
  import opened Seqs
  import opened Numbers

  type Unit = u: int | 0 <= u < 0x10000
  type Units = seq<Unit>

  const REPLACEMENT: Unit := 0xFFFD

  /** A Unicode scalar value. */
  predicate Scalar(cp: int) {
    0 <= cp < 0xD800 || 0xE000 <= cp < 0x110000
  }

  type Scalars = s: seq<int> | forall i :: 0 <= i < |s| ==> Scalar(s[i])

  // ---------------------------------------------------------------- the standards

  /** One scalar in UTF-8, by section 3 of RFC 3629. */
  function Utf8(cp: int): (s: Text)
    requires Scalar(cp)
    ensures 1 <= |s| <= 4
  {
    if cp < 0x80 then [cp]
    else if cp < 0x800 then [0xC0 + cp / 0x40, 0x80 + cp % 0x40]
    else if cp < 0x10000 then [0xE0 + cp / 0x1000, 0x80 + cp / 0x40 % 0x40, 0x80 + cp % 0x40]
    else [0xF0 + cp / 0x40000, 0x80 + cp / 0x1000 % 0x40, 0x80 + cp / 0x40 % 0x40, 0x80 + cp % 0x40]
  }

  function EncodeUtf8(cps: Scalars): Text {
    if cps == [] then [] else Utf8(cps[0]) + EncodeUtf8(cps[1..])
  }

  /** One scalar in UTF-16, by section 2.1 of RFC 2781. */
  function Utf16(cp: int): (u: Units)
    requires Scalar(cp)
    ensures 1 <= |u| <= 2
  {
    if cp < 0x10000 then [cp] else [0xD800 + (cp - 0x10000) / 0x400, 0xDC00 + (cp - 0x10000) % 0x400]
  }

  function EncodeUtf16(cps: Scalars): Units {
    if cps == [] then [] else Utf16(cps[0]) + EncodeUtf16(cps[1..])
  }

  predicate High(u: Unit) {
    0xD800 <= u < 0xDC00
  }

  predicate Low(u: Unit) {
    0xDC00 <= u < 0xE000
  }

  /** Decoding, by section 2.2 of RFC 2781; a lone surrogate is an error. */
  function DecodeUtf16(out: Units): Option<Scalars>
    decreases |out|
  {
    if out == [] then Some([])
    else if High(out[0]) then
      if |out| == 1 || !Low(out[1]) then None
      else Prepend(Pair(out[0], out[1]), DecodeUtf16(out[2..]))
    else if Low(out[0]) then None
    else Prepend(out[0], DecodeUtf16(out[1..]))
  }

  function Pair(high: Unit, low: Unit): (cp: int)
    requires High(high) && Low(low)
    ensures Scalar(cp) && cp >= 0x10000
  {
    var h: int, l: int := high, low;
    0x10000 + (h - 0xD800) * 0x400 + (l - 0xDC00)
  }

  function Prepend(cp: int, cps: Option<Scalars>): Option<Scalars>
    requires Scalar(cp)
  {
    match cps
    case None => None
    case Some(rest) => Some([cp] + rest)
  }

  // ---------------------------------------------------------------- the conversion

  predicate Continuation(b: Byte) {
    b / 0x40 == 2
  }

  /** The payload bits of a byte: what is left below the tag. */
  function Low6(b: Byte): (v: int)
    ensures 0 <= v < 0x40
  {
    b % 0x40
  }

  function Lead(b: Byte, size: int): (v: int)
    requires size > 0
    ensures 0 <= v < size
  {
    b % size
  }

  function Two(a: Byte, b: Byte): int {
    Lead(a, 0x20) * 0x40 + Low6(b)
  }

  function Three(a: Byte, b: Byte, c: Byte): int {
    Lead(a, 0x10) * 0x1000 + Low6(b) * 0x40 + Low6(c)
  }

  function Four(a: Byte, b: Byte, c: Byte, d: Byte): int {
    Lead(a, 8) * 0x40000 + Low6(b) * 0x1000 + Low6(c) * 0x40 + Low6(d)
  }

  predicate Continues(s: Text, from: nat, n: nat) {
    from + n <= |s| && forall i :: from <= i < from + n ==> Continuation(s[i])
  }

  function OrReplacement(ok: bool, cp: int): int {
    if ok then cp else REPLACEMENT
  }

  /** The code point at the front of a byte string, and how many bytes it takes. */
  function Front(s: Text): (r: (int, nat))
    requires s != []
    ensures Scalar(r.0) && 1 <= r.1 <= |s|
    ensures r.0 >= 0x10000 ==> r.1 == 4
  {
    var c := s[0];
    if c < 0x80 then (c, 1)
    else if c / 0x20 == 6 && Continues(s, 1, 1) then
      var cp := Two(c, s[1]);
      (OrReplacement(cp >= 0x80, cp), 2)
    else if c / 0x10 == 14 && Continues(s, 1, 2) then
      var cp := Three(c, s[1], s[2]);
      (OrReplacement(cp >= 0x800 && !(0xD800 <= cp <= 0xDFFF), cp), 3)
    else if c / 8 == 30 && Continues(s, 1, 3) then
      var cp := Four(c, s[1], s[2], s[3]);
      (OrReplacement(0x10000 <= cp <= 0x10FFFF, cp), 4)
    else (REPLACEMENT, 1)
  }

  /** The code points that a byte string is read as. */
  function ReadScalars(s: Text): (cps: Scalars)
    decreases |s|
  {
    if s == [] then [] else [Front(s).0] + ReadScalars(s[Front(s).1..])
  }

  function ToUtf16(s: Text): Units {
    EncodeUtf16(ReadScalars(s))
  }

  // ---------------------------------------------------------------- properties

  lemma UnitDecodes(cp: int, rest: Units)
    requires Scalar(cp)
    ensures DecodeUtf16(Utf16(cp) + rest) == Prepend(cp, DecodeUtf16(rest))
  {
    var all := Utf16(cp) + rest;
    assert all[|Utf16(cp)|..] == rest;
  }

  lemma {:induction false} EncodedDecodes(cps: Scalars)
    ensures DecodeUtf16(EncodeUtf16(cps)) == Some(cps)
    decreases |cps|
  {
    if cps != [] {
      hide DecodeUtf16, Utf16;
      EncodedDecodes(cps[1..]);
      UnitDecodes(cps[0], EncodeUtf16(cps[1..]));
      assert [cps[0]] + cps[1..] == cps;
    } else {
      assert cps == [];
    }
  }

  /** Any byte string gives UTF-16 without lone surrogates. */
  lemma ToUtf16Decodes(s: Text)
    ensures DecodeUtf16(ToUtf16(s)) == Some(ReadScalars(s))
  {
    EncodedDecodes(ReadScalars(s));
  }

  /** There are at most as many units as bytes. */
  lemma {:induction false} NeverLonger(s: Text)
    ensures |ToUtf16(s)| <= |s|
    decreases |s|
  {
    if s != [] {
      NeverLonger(s[Front(s).1..]);
      var cps := ReadScalars(s);
      assert cps[1..] == ReadScalars(s[Front(s).1..]);
    }
  }

  lemma Digits(cp: int)
    requires 0 <= cp < 0x110000
    ensures cp == cp / 0x40 * 0x40 + cp % 0x40
    ensures cp == cp / 0x1000 * 0x1000 + cp / 0x40 % 0x40 * 0x40 + cp % 0x40
    ensures cp == cp / 0x40000 * 0x40000 + cp / 0x1000 % 0x40 * 0x1000 + cp / 0x40 % 0x40 * 0x40 + cp % 0x40
  {
    var a := cp / 0x40;
    var b := a / 0x40;
    var c := b / 0x40;
    Divided(cp, b, a % 0x40 * 0x40 + cp % 0x40, 0x1000);
    Divided(cp, c, b % 0x40 * 0x1000 + a % 0x40 * 0x40 + cp % 0x40, 0x40000);
  }

  lemma FrontOfEncoded(cp: int, rest: Text)
    requires Scalar(cp)
    ensures Front(Utf8(cp) + rest) == (cp, |Utf8(cp)|)
  {
    var s := Utf8(cp) + rest;
    Digits(cp);
    forall i | 0 <= i < |Utf8(cp)|
      ensures s[i] == Utf8(cp)[i]
    {
    }
  }

  /** Well-formed UTF-8 is read as the scalars it encodes. */
  lemma {:induction false} ReadsEncoded(cps: Scalars)
    ensures ReadScalars(EncodeUtf8(cps)) == cps
    decreases |cps|
  {
    if cps != [] {
      hide Front, Utf8;
      var rest := EncodeUtf8(cps[1..]);
      FrontOfEncoded(cps[0], rest);
      ReadsEncoded(cps[1..]);
      var s := Utf8(cps[0]) + rest;
      assert s[|Utf8(cps[0])|..] == rest;
      assert [cps[0]] + cps[1..] == cps;
    }
  }

  /** Well-formed UTF-8 becomes the UTF-16 of the same scalars. */
  lemma EncodingCarriesOver(cps: Scalars)
    ensures ToUtf16(EncodeUtf8(cps)) == EncodeUtf16(cps)
  {
    ReadsEncoded(cps);
  }

  lemma TwoIsEncoded(a: Byte, b: Byte)
    requires a / 0x20 == 6 && Continuation(b) && Two(a, b) >= 0x80
    ensures Two(a, b) < 0x800 && Utf8(Two(a, b)) == [a, b]
  {
  }

  lemma ThreeIsEncoded(a: Byte, b: Byte, c: Byte)
    requires a / 0x10 == 14 && Continuation(b) && Continuation(c)
    requires Three(a, b, c) >= 0x800 && Scalar(Three(a, b, c))
    ensures Utf8(Three(a, b, c)) == [a, b, c]
  {
    var cp, w, x, y := Three(a, b, c), Lead(a, 0x10), Low6(b), Low6(c);
    Divided(cp, w, x * 0x40 + y, 0x1000);
    Divided(cp, w * 0x40 + x, y, 0x40);
    Divided(w * 0x40 + x, w, x, 0x40);
  }

  /** A lead byte of four and continuation bytes are their tags and their payloads. */
  lemma TaggedFour(a: Byte, b: Byte, c: Byte, d: Byte)
    requires a / 8 == 30 && Continuation(b) && Continuation(c) && Continuation(d)
    ensures a == 0xF0 + Lead(a, 8) && b == 0x80 + Low6(b) && c == 0x80 + Low6(c) && d == 0x80 + Low6(d)
  {
  }

  lemma FourIsEncoded(a: Byte, b: Byte, c: Byte, d: Byte)
    requires a / 8 == 30 && Continuation(b) && Continuation(c) && Continuation(d)
    requires 0x10000 <= Four(a, b, c, d) <= 0x10FFFF
    ensures Utf8(Four(a, b, c, d)) == [a, b, c, d]
  {
    var cp, w, x, y, z := Four(a, b, c, d), Lead(a, 8), Low6(b), Low6(c), Low6(d);
    Divided(cp, w, x * 0x1000 + y * 0x40 + z, 0x40000);
    Divided(cp, w * 0x40 + x, y * 0x40 + z, 0x1000);
    Divided(cp, w * 0x1000 + x * 0x40 + y, z, 0x40);
    Divided(w * 0x40 + x, w, x, 0x40);
    Divided(w * 0x1000 + x * 0x40 + y, w * 0x40 + x, y, 0x40);
    TaggedFour(a, b, c, d);
  }

  lemma FrontIsEncoded(s: Text)
    requires s != [] && Front(s).0 != REPLACEMENT
    ensures s[..Front(s).1] == Utf8(Front(s).0)
  {
    hide Two, Three, Four, Utf8;
    var (cp, n) := Front(s);
    if n == 1 {
      assert s[..n] == [s[0]];
      OneIsEncoded(s[0]);
    } else if n == 2 {
      TwoIsEncoded(s[0], s[1]);
      assert s[..n] == [s[0], s[1]];
    } else if n == 3 {
      ThreeIsEncoded(s[0], s[1], s[2]);
      assert s[..n] == [s[0], s[1], s[2]];
    } else {
      FourIsEncoded(s[0], s[1], s[2], s[3]);
      assert s[..n] == [s[0], s[1], s[2], s[3]];
    }
  }

  lemma OneIsEncoded(a: Byte)
    requires a < 0x80
    ensures Utf8(a) == [a]
  {
  }

  /** A scalar whose encoding the text starts with. */
  predicate StartsWith(s: Text, cp: int) {
    Scalar(cp) && Utf8(cp) <= s
  }

  /** So many continuation bytes come after the first byte. */
  predicate Continued(s: Text, n: nat) {
    |s| > n && forall i :: 1 <= i <= n ==> 0x80 <= s[i] <= 0xbf
  }

  lemma ContinuedIs(s: Text, n: nat)
    requires s != []
    ensures Continues(s, 1, n) <==> Continued(s, n)
  {
  }

  /** The bytes that one code point takes, well formed or not: those that its first byte
      announces if they are continuation bytes, and otherwise one. */
  function Taken(s: Text): nat
    requires s != []
  {
    if 0xc0 <= s[0] <= 0xdf && Continued(s, 1) then 2
    else if 0xe0 <= s[0] <= 0xef && Continued(s, 2) then 3
    else if 0xf0 <= s[0] <= 0xf7 && Continued(s, 3) then 4
    else 1
  }

  /** What comes first is the scalar that is encoded there, or U+FFFD if none is. */
  lemma FrontExactly(s: Text)
    requires s != []
    ensures Front(s).1 == Taken(s)
    ensures forall cp :: StartsWith(s, cp) ==> Front(s).0 == cp
    ensures (forall cp :: !StartsWith(s, cp)) ==> Front(s).0 == 0xfffd
  {
    FrontTakes(s);
    hide Front, Utf8, Taken;
    forall cp | StartsWith(s, cp)
      ensures Front(s).0 == cp
    {
      var n := |Utf8(cp)|;
      assert s == Utf8(cp) + s[n..];
      FrontOfEncoded(cp, s[n..]);
    }
    if Front(s).0 != REPLACEMENT {
      FrontIsEncoded(s);
      assert StartsWith(s, Front(s).0);
    }
  }

  lemma FrontTakes(s: Text)
    requires s != []
    ensures Front(s).1 == Taken(s)
  {
    hide Continues, Continued, Two, Three, Four;
    ContinuedIs(s, 1);
    ContinuedIs(s, 2);
    ContinuedIs(s, 3);
  }

  lemma ReadsOn(s: Text)
    requires s != []
    ensures ReadScalars(s) == [Front(s).0] + ReadScalars(s[Front(s).1..])
    ensures REPLACEMENT in ReadScalars(s) <==>
            Front(s).0 == REPLACEMENT || REPLACEMENT in ReadScalars(s[Front(s).1..])
  {
    hide Front;
  }

  lemma EncodeCons(cp: int, cps: Scalars)
    requires Scalar(cp)
    ensures EncodeUtf8([cp] + cps) == Utf8(cp) + EncodeUtf8(cps)
  {
    hide Utf8;
    assert ([cp] + cps)[1..] == cps;
  }

  lemma NothingRead(s: Text)
    requires s == []
    ensures ReadScalars(s) == [] && EncodeUtf8(ReadScalars(s)) == s
  {
  }

  lemma Halves(s: Text, n: nat)
    requires n <= |s|
    ensures s == s[..n] + s[n..]
  {
  }

  lemma {:induction false} UnreplacedIsEncoded(s: Text)
    requires REPLACEMENT !in ReadScalars(s)
    ensures EncodeUtf8(ReadScalars(s)) == s
    decreases |s|
  {
    hide Front, Utf8, ReadScalars, EncodeUtf8;
    if s == [] {
      NothingRead(s);
    } else {
      var (cp, n) := Front(s);
      ReadsOn(s);
      FrontIsEncoded(s);
      UnreplacedIsEncoded(s[n..]);
      EncodeCons(cp, ReadScalars(s[n..]));
      Halves(s, n);
    }
  }

  lemma {:induction false} ReplacementShows(cps: Scalars)
    ensures REPLACEMENT in cps <==> REPLACEMENT in EncodeUtf16(cps)
    decreases |cps|
  {
    if cps != [] {
      ReplacementShows(cps[1..]);
      assert cps == [cps[0]] + cps[1..];
      assert REPLACEMENT in Utf16(cps[0]) <==> cps[0] == REPLACEMENT;
    }
  }

  /** A byte string that does not encode U+FFFD is converted without a U+FFFD exactly when
      it is well-formed, and then nothing of it is lost. */
  lemma ReplacedIffMalformed(s: Text)
    ensures REPLACEMENT !in ToUtf16(s) <==>
            exists cps: Scalars :: REPLACEMENT !in cps && s == EncodeUtf8(cps)
    ensures REPLACEMENT !in ToUtf16(s) ==> s == EncodeUtf8(ReadScalars(s))
  {
    ReplacementShows(ReadScalars(s));
    if REPLACEMENT !in ToUtf16(s) {
      UnreplacedIsEncoded(s);
    }
    forall cps: Scalars | REPLACEMENT !in cps && s == EncodeUtf8(cps)
      ensures REPLACEMENT !in ToUtf16(s)
    {
      ReadsEncoded(cps);
    }
  }

  lemma {:induction false} UnitsAppend(a: Scalars, cp: int)
    requires Scalar(cp)
    ensures EncodeUtf16(a + [cp]) == EncodeUtf16(a) + Utf16(cp)
    decreases |a|
  {
    if a == [] {
      assert a + [cp] == [cp] && EncodeUtf16([cp][1..]) == [];
    } else {
      UnitsAppend(a[1..], cp);
      assert (a + [cp])[1..] == a[1..] + [cp];
      Assoc(Utf16(a[0]), EncodeUtf16(a[1..]), Utf16(cp));
    }
  }

  // ---------------------------------------------------------------- the loop

  /** Reads the code point at index i, as the conversion loop does. */
  method ReadScalar(s: Text, i: nat) returns (cp: int, next: nat)
    requires i < |s|
    ensures cp == Front(s[i..]).0 && next == i + Front(s[i..]).1
  {
    hide OrReplacement;
    var len, c := |s|, s[i];
    ghost var t := s[i..];
    assert forall k :: 0 <= k < |t| ==> t[k] == s[i + k];
    cp, next := REPLACEMENT, i + 1;
    if c < 0x80 {
      cp := c;
    } else if c / 0x20 == 6 && next < len && Continuation(s[next]) {
      cp := Two(c, s[next]);
      next := next + 1;
      cp := OrReplacement(cp >= 0x80, cp);
    } else if c / 0x10 == 14 && next + 1 < len && Continuation(s[next]) && Continuation(s[next + 1]) {
      cp := Three(c, s[next], s[next + 1]);
      next := next + 2;
      cp := OrReplacement(cp >= 0x800 && !(0xD800 <= cp <= 0xDFFF), cp);
    } else if c / 8 == 30 && next + 2 < len && Continuation(s[next]) && Continuation(s[next + 1])
              && Continuation(s[next + 2]) {
      cp := Four(c, s[next], s[next + 1], s[next + 2]);
      next := next + 3;
      cp := OrReplacement(0x10000 <= cp <= 0x10FFFF, cp);
    }
  }

  /** Converts into a buffer of one unit per byte and a terminator, and never past it. */
  method Utf8ToUtf16(s: Text) returns (out: array<Unit>, n: nat)
    ensures fresh(out) && out.Length == |s| + 1 && n <= |s|
    ensures out[..n] == ToUtf16(s) && out[n] == 0
  {
    hide Front, Utf16;
    out := new Unit[|s| + 1](k => 0);
    var i, j := 0, 0;
    ghost var done: Scalars := [];
    assert s[0..] == s;
    EmptyFront(done, ReadScalars(s));
    while i < |s|
      invariant 0 <= i <= |s| && 0 <= j <= i
      invariant done + ReadScalars(s[i..]) == ReadScalars(s)
      invariant out[..j] == EncodeUtf16(done)
      decreases |s| - i
    {
      ghost var from, units, written := s[i..], out[..j], j;
      var cp, next := ReadScalar(s, i);
      assert from[Front(from).1..] == s[next..];
      Assoc(done, [cp], ReadScalars(s[next..]));
      UnitsAppend(done, cp);
      FrontLength(from);
      ghost var more := Utf16(cp);
      if cp <= 0xFFFF {
        OneUnit(cp);
        out[j] := cp;
        j := j + 1;
      } else {
        TwoUnits(cp);
        var rest := cp - 0x10000;
        out[j], out[j + 1] := 0xD800 + rest / 0x400, 0xDC00 + rest % 0x400;
        j := j + 2;
      }
      assert out[..written] == units;
      assert out[..j] == units + more;
      done := done + [cp];
      i := next;
    }
    assert ReadScalars(s[i..]) == [];
    EmptyBack(done, []);
    out[j] := 0;
    n := j;
  }

  lemma FrontLength(s: Text)
    requires s != []
    ensures |Utf16(Front(s).0)| <= Front(s).1 <= |s|
  {
  }

  lemma OneUnit(cp: int)
    requires Scalar(cp) && cp <= 0xFFFF
    ensures Utf16(cp) == [cp]
  {
  }

  lemma TwoUnits(cp: int)
    requires Scalar(cp) && cp > 0xFFFF
    ensures Utf16(cp) == [0xD800 + (cp - 0x10000) / 0x400, 0xDC00 + (cp - 0x10000) % 0x400]
  {
  }
}
