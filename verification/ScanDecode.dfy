/**
 What the scanner makes of bytes, said from outside: the code points of UTF-8, and what it
 lets through that the standard forbids.
 */
module ScanDecode {
  import opened Bytes
  import opened Scanner
  import opened Utf16

  lemma FrontBytes(e: Text, rest: Text)
    ensures forall i :: 0 <= i < |e| ==> (e + rest)[i] == e[i]
  {
  }

  /** Every scalar, encoded by section 3 of RFC 3629, comes out as itself, whatever follows. */
  lemma DecodeEncoded(cp: int, rest: Text)
    requires Scalar(cp)
    ensures Decode(Utf8(cp) + rest) == Decoded(cp, |Utf8(cp)|)
  {
    Digits(cp);
    var e := Utf8(cp);
    FrontBytes(e, rest);
  }

  /** Forms that the standard forbids and the scanner reads all the same: three bytes for
      what takes two or for a surrogate, four bytes for what takes three or is beyond the
      last code point. */
  predicate LetThrough(s: Text) {
    || (|s| >= 3 && s[0] == 0xe0 && 0x80 <= s[1] <= 0x9f && 0x80 <= s[2] <= 0xbf)
    || (|s| >= 3 && s[0] == 0xed && 0xa0 <= s[1] <= 0xbf && 0x80 <= s[2] <= 0xbf)
    || (|s| >= 4 && s[0] == 0xf0 && 0x80 <= s[1] <= 0x8f && 0x80 <= s[2] <= 0xbf && 0x80 <= s[3] <= 0xbf)
    || (|s| >= 4 && s[0] == 0xf4 && 0x90 <= s[1] <= 0xbf && 0x80 <= s[2] <= 0xbf && 0x80 <= s[3] <= 0xbf)
  }

  lemma StartsDecodes(s: Text, cp: int)
    requires StartsWith(s, cp)
    ensures Decode(s) == Decoded(cp, |Utf8(cp)|)
  {
    var n := |Utf8(cp)|;
    assert s == Utf8(cp) + s[n..];
    DecodeEncoded(cp, s[n..]);
  }

  lemma TwoBytes(s: Text)
    requires s != [] && Decode(s).n == 2
    ensures StartsWith(s, Decode(s).cp)
  {
    TwoIsEncoded(s[0], s[1]);
    assert Two(s[0], s[1]) == Decode(s).cp;
    assert s[..2] == [s[0], s[1]];
  }

  lemma ThreeBytes(s: Text)
    requires s != [] && Decode(s).n == 3
    ensures Decode(s).cp == Three(s[0], s[1], s[2])
    ensures StartsWith(s, Decode(s).cp) || LetThrough(s)
  {
    var cp := Decode(s).cp;
    assert cp == Three(s[0], s[1], s[2]);
    if cp >= 0x800 && Scalar(cp) {
      ThreeIsEncoded(s[0], s[1], s[2]);
      assert s[..3] == [s[0], s[1], s[2]];
    }
  }

  lemma FourBytes(s: Text)
    requires s != [] && Decode(s).n == 4
    ensures Decode(s).cp == Four(s[0], s[1], s[2], s[3])
    ensures StartsWith(s, Decode(s).cp) || LetThrough(s)
  {
    var cp := Decode(s).cp;
    assert cp == Four(s[0], s[1], s[2], s[3]);
    if 0x10000 <= cp <= 0x10ffff {
      FourIsEncoded(s[0], s[1], s[2], s[3]);
      assert s[..4] == [s[0], s[1], s[2], s[3]];
    }
  }

  lemma LetThroughDecodes(s: Text)
    requires LetThrough(s)
    ensures Decode(s) == if s[0] < 0xf0 then Decoded(Three(s[0], s[1], s[2]), 3)
                         else Decoded(Four(s[0], s[1], s[2], s[3]), 4)
  {
  }

  lemma LetThroughIsNone(s: Text)
    requires LetThrough(s)
    ensures forall cp :: !StartsWith(s, cp)
  {
    hide Utf8;
    forall cp | StartsWith(s, cp)
      ensures false
    {
      StartsDecodes(s, cp);
      EncodedLength(cp);
    }
  }

  /** The values that each length of encoding is for. */
  lemma EncodedLength(cp: int)
    requires Scalar(cp)
    ensures |Utf8(cp)| == if cp < 0x80 then 1 else if cp < 0x800 then 2 else if cp < 0x10000 then 3 else 4
  {
  }

  /** The whole of decoding: a scalar whose encoding comes first; or, for a form that is let
      through, the value of its payload bits; or else the front byte as itself. */
  lemma DecodeExactly(s: Text)
    requires s != []
    ensures forall cp :: StartsWith(s, cp) ==> Decode(s) == Decoded(cp, |Utf8(cp)|)
    ensures LetThrough(s) ==>
              && (forall cp :: !StartsWith(s, cp))
              && Decode(s) == if s[0] < 0xf0 then Decoded(Three(s[0], s[1], s[2]), 3)
                              else Decoded(Four(s[0], s[1], s[2], s[3]), 4)
    ensures (forall cp :: !StartsWith(s, cp)) && !LetThrough(s) ==> Decode(s) == Decoded(s[0], 1)
  {
    hide Decode, Utf8;
    forall cp | StartsWith(s, cp)
      ensures Decode(s) == Decoded(cp, |Utf8(cp)|)
    {
      StartsDecodes(s, cp);
    }
    if LetThrough(s) {
      LetThroughIsNone(s);
      LetThroughDecodes(s);
    }
    LengthDecides(s);
  }

  lemma LengthDecides(s: Text)
    requires s != []
    ensures Decode(s) == Decoded(s[0], 1) || StartsWith(s, Decode(s).cp) || LetThrough(s)
  {
    if Decode(s).n == 2 {
      TwoBytes(s);
    } else if Decode(s).n == 3 {
      ThreeBytes(s);
    } else if Decode(s).n == 4 {
      FourBytes(s);
    }
  }
}
