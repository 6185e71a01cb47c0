/**
 Base64 with tables of single characters and of pairs, against section 4 of RFC 4648.
 */
module Base64 {
  import opened Bytes
  import opened Seqs
  import opened Numbers

  const UPPER: string := "ABCDEFGHIJKLMNOPQRSTUVWXYZ"
  const LOWER: string := "abcdefghijklmnopqrstuvwxyz"
  const DIGITS: string := "0123456789"
  const ALPHABET: string := UPPER + LOWER + DIGITS + "+/"

  type Sextet = v: int | 0 <= v < 64

  // ---------------------------------------------------------------- the standard

  /** The character of a six-bit value, range by range. */
  function Digit(v: Sextet): char {
    if v < 26 then 'A' + v as char
    else if v < 52 then 'a' + (v - 26) as char
    else if v < 62 then '0' + (v - 52) as char
    else if v == 62 then '+' else '/'
  }

  /** The value of a character of the alphabet. */
  function Undigit(c: char): Option<Sextet> {
    if 'A' <= c <= 'Z' then Some((c - 'A') as int)
    else if 'a' <= c <= 'z' then Some((c - 'a') as int + 26)
    else if '0' <= c <= '9' then Some((c - '0') as int + 52)
    else if c == '+' then Some(62)
    else if c == '/' then Some(63)
    else None
  }

  lemma DigitBack(v: Sextet)
    ensures Undigit(Digit(v)) == Some(v) && Digit(v) != '='
  {
  }

  lemma AlphabetDigits()
    ensures |ALPHABET| == 64 && forall v: int :: 0 <= v < 64 ==> ALPHABET[v] == Digit(v)
  {
    assert forall i :: 0 <= i < 26 ==> UPPER[i] == 'A' + i as char;
    assert forall i :: 0 <= i < 26 ==> LOWER[i] == 'a' + i as char;
    assert forall i :: 0 <= i < 10 ==> DIGITS[i] == '0' + i as char;
    forall v: int | 0 <= v < 64
      ensures ALPHABET[v] == Digit(v)
    {
      assert v < 26 ==> ALPHABET[v] == UPPER[v];
      assert 26 <= v < 52 ==> ALPHABET[v] == LOWER[v - 26];
      assert 52 <= v < 62 ==> ALPHABET[v] == DIGITS[v - 52];
      assert 62 <= v ==> ALPHABET[v] == "+/"[v - 62];
    }
  }

  /** Three bytes are one number of 24 bits, and that is four digits of 6 bits. */
  function Number(a: Byte, b: Byte, c: Byte): (n: int)
    ensures 0 <= n < 0x1000000
  {
    var x: int, y: int, z: int := a, b, c;
    x * 0x10000 + y * 0x100 + z
  }

  function DigitAt(n: int, place: int): char
    requires 0 <= n && 0 < place
  {
    Digit(n / place % 64)
  }

  /** What is missing at the end counts as zero bits, and padding says how much it is. */
  function Encoded(t: Text): string
    decreases |t|
  {
    if t == [] then ""
    else if |t| == 1 then
      var n := Number(t[0], 0, 0);
      [DigitAt(n, 0x40000), DigitAt(n, 0x1000), '=', '=']
    else if |t| == 2 then
      var n := Number(t[0], t[1], 0);
      [DigitAt(n, 0x40000), DigitAt(n, 0x1000), DigitAt(n, 0x40), '=']
    else
      var n := Number(t[0], t[1], t[2]);
      [DigitAt(n, 0x40000), DigitAt(n, 0x1000), DigitAt(n, 0x40), DigitAt(n, 1)] + Encoded(t[3..])
  }

  // ---------------------------------------------------------------- decoding

  function Join(a: Sextet, b: Sextet, c: Sextet, d: Sextet): (n: int)
    ensures 0 <= n < 0x1000000
  {
    var w: int, x: int, y: int, z: int := a, b, c, d;
    w * 0x40000 + x * 0x1000 + y * 0x40 + z
  }

  function Bytes3(n: int): (t: Text)
    requires 0 <= n < 0x1000000
    ensures |t| == 3
  {
    [n / 0x10000, n / 0x100 % 0x100, n % 0x100]
  }

  function Value(c: char): Sextet {
    if Undigit(c).Some? then Undigit(c).value else 0
  }

  /** The standard decoder: groups of four characters, padding only at the very end and
      only over bits that are zero. */
  function Decoded(s: string): Option<Text>
    decreases |s|
  {
    if s == [] then Some([])
    else if |s| < 4 || Undigit(s[0]).None? || Undigit(s[1]).None? then None
    else
      var n := Join(Value(s[0]), Value(s[1]), Value(s[2]), Value(s[3]));
      if |s| == 4 && s[2] == '=' && s[3] == '=' then
        if n % 0x10000 == 0 then Some(Bytes3(n)[..1]) else None
      else if |s| == 4 && s[3] == '=' then
        if Undigit(s[2]).Some? && n % 0x100 == 0 then Some(Bytes3(n)[..2]) else None
      else if Undigit(s[2]).None? || Undigit(s[3]).None? then None
      else
        match Decoded(s[4..])
        case None => None
        case Some(rest) => Some(Bytes3(n) + rest)
  }

  // ---------------------------------------------------------------- properties

  lemma {:induction false} EncodedLength(t: Text)
    ensures |Encoded(t)| == 4 * ((|t| + 2) / 3)
    decreases |t|
  {
    hide DigitAt, Number;
    if |t| > 2 {
      EncodedLength(t[3..]);
    }
  }

  lemma NumberBytes(a: Byte, b: Byte, c: Byte)
    ensures Bytes3(Number(a, b, c)) == [a, b, c]
  {
    var n, x: int, y: int, z: int := Number(a, b, c), a, b, c;
    assert n / 0x10000 == x;
    assert n / 0x100 == x * 0x100 + y;
    assert n / 0x100 % 0x100 == y;
    assert n % 0x100 == z;
  }

  /** A number of 24 bits as four of 6 bits. */
  lemma Sextets(n: int) returns (a: Sextet, b: Sextet, c: Sextet, d: Sextet)
    requires 0 <= n < 0x1000000
    ensures Join(a, b, c, d) == n
    ensures n / 0x40000 == a && n / 0x1000 == a * 64 + b && n / 0x40 == a * 0x1000 + b * 64 + c
    ensures n % 64 == d && n / 0x40 % 64 == c && n / 0x1000 % 64 == b && n / 0x40000 % 64 == a
    ensures n % 0x1000 == c * 64 + d
  {
    var m := n / 64;
    var k := m / 64;
    var w: int, x: int, y: int, z: int := k / 64, k % 64, m % 64, n % 64;
    a, b, c, d := w, x, y, z;
    Divided(n, w, x * 0x1000 + y * 64 + z, 0x40000);
    Divided(n, w * 64 + x, y * 64 + z, 0x1000);
    Divided(n, w * 0x1000 + x * 64 + y, z, 0x40);
    Divided(w * 0x1000 + x * 64 + y, w * 64 + x, y, 64);
    Divided(w * 64 + x, w, x, 64);
    Divided(w, 0, w, 64);
  }

  lemma DigitsJoin(n: int)
    requires 0 <= n < 0x1000000
    ensures 0 <= n / 0x40000 < 64 && n / 0x40000 % 64 == n / 0x40000
    ensures Join(n / 0x40000 % 64, n / 0x1000 % 64, n / 0x40 % 64, n % 64) == n
  {
    hide Join;
    var a, b, c, d := Sextets(n);
  }

  lemma GroupDecodes(n: int, rest: string)
    requires 0 <= n < 0x1000000
    ensures var s := [DigitAt(n, 0x40000), DigitAt(n, 0x1000), DigitAt(n, 0x40), DigitAt(n, 1)] + rest;
            Decoded(s) == match Decoded(rest)
                          case None => None
                          case Some(more) => Some(Bytes3(n) + more)
  {
    hide Digit, Undigit, Join, Bytes3;
    var s := [DigitAt(n, 0x40000), DigitAt(n, 0x1000), DigitAt(n, 0x40), DigitAt(n, 1)] + rest;
    DigitsJoin(n);
    assert n / 1 == n;
    DigitBack(n / 0x40000 % 64);
    DigitBack(n / 0x1000 % 64);
    DigitBack(n / 0x40 % 64);
    DigitBack(n % 64);
    assert s[4..] == rest;
  }

  lemma TwoBytesLeft(a: Byte, b: Byte)
    ensures Number(a, b, 0) % 0x100 == 0 && Number(a, b, 0) % 64 == 0
  {
  }

  lemma OneByteLeft(a: Byte)
    ensures Number(a, 0, 0) % 0x10000 == 0 && Number(a, 0, 0) % 64 == 0 && Number(a, 0, 0) / 0x40 % 64 == 0
  {
  }

  lemma PairDecodes(a: Byte, b: Byte)
    ensures Decoded(Encoded([a, b])) == Some([a, b])
  {
    hide Digit, Undigit, Join, Bytes3, Number, Encoded;
    var n := Number(a, b, 0);
    var s := [DigitAt(n, 0x40000), DigitAt(n, 0x1000), DigitAt(n, 0x40), '='];
    EncodedPair([a, b], 0);
    assert [a, b][0..] == [a, b];
    assert Encoded([a, b]) == s;
    TwoBytesLeft(a, b);
    DigitsJoin(n);
    DigitBack(n / 0x40000 % 64);
    DigitBack(n / 0x1000 % 64);
    DigitBack(n / 0x40 % 64);
    PaddingHasNoValue();
    NumberBytes(a, b, 0);
    assert Join(Value(s[0]), Value(s[1]), Value(s[2]), Value(s[3])) == n;
    assert [a, b, 0][..2] == [a, b];
  }

  lemma SingleDecodes(a: Byte)
    ensures Decoded(Encoded([a])) == Some([a])
  {
    hide Digit, Undigit, Join, Bytes3, Number, Encoded;
    var n := Number(a, 0, 0);
    var s := [DigitAt(n, 0x40000), DigitAt(n, 0x1000), '=', '='];
    EncodedSingle([a], 0);
    assert [a][0..] == [a];
    assert Encoded([a]) == s;
    OneByteLeft(a);
    DigitsJoin(n);
    DigitBack(n / 0x40000 % 64);
    DigitBack(n / 0x1000 % 64);
    PaddingHasNoValue();
    NumberBytes(a, 0, 0);
    assert Join(Value(s[0]), Value(s[1]), Value(s[2]), Value(s[3])) == n;
    assert [a, 0, 0][..1] == [a];
  }

  lemma PaddingHasNoValue()
    ensures Undigit('=') == None
  {
  }

  /** Decoding gives back every byte string. */
  lemma {:induction false} RoundTrip(t: Text)
    ensures Decoded(Encoded(t)) == Some(t)
    decreases |t|
  {
    hide Decoded, DigitAt, Number;
    if t == [] {
      NothingDecodes();
    } else if |t| == 1 {
      SingleDecodes(t[0]);
      assert t == [t[0]];
    } else if |t| == 2 {
      PairDecodes(t[0], t[1]);
      assert t == [t[0], t[1]];
    } else {
      RoundTrip(t[3..]);
      GroupDecodes(Number(t[0], t[1], t[2]), Encoded(t[3..]));
      NumberBytes(t[0], t[1], t[2]);
      assert t == [t[0], t[1], t[2]] + t[3..];
    }
  }

  lemma NothingDecodes()
    ensures Decoded(Encoded([])) == Some([])
  {
  }

  // ---------------------------------------------------------------- the tables

  method CharTable() returns (chars: array<string>)
    ensures fresh(chars) && chars.Length == 64 && forall v: int :: 0 <= v < 64 ==> chars[v] == [Digit(v)]
  {
    hide Digit;
    AlphabetDigits();
    chars := new string[64](i => "");
    for i := 0 to 64
      invariant forall v: int :: 0 <= v < i ==> chars[v] == [Digit(v)]
    {
      chars[i] := ALPHABET[i..i + 1];
    }
  }

  predicate IsPair(s: string, v: int)
    requires 0 <= v
  {
    s == [Digit(v / 64 % 64), Digit(v % 64)]
  }

  method PairTable(chars: array<string>) returns (pairs: array<string>)
    requires chars.Length == 64 && forall v: int :: 0 <= v < 64 ==> chars[v] == [Digit(v)]
    ensures fresh(pairs) && pairs.Length == 4096
    ensures forall v: int :: 0 <= v < 4096 ==> IsPair(pairs[v], v)
  {
    hide Digit, IsPair;
    pairs := new string[4096](i => "");
    for i := 0 to 4096
      invariant forall v: int :: 0 <= v < i ==> IsPair(pairs[v], v)
    {
      pairs[i] := chars[i / 64 % 64] + chars[i % 64];
      ThatIsPair(i, pairs[i]);
    }
  }

  lemma ThatIsPair(v: nat, s: string)
    requires s == [Digit(v / 64 % 64)] + [Digit(v % 64)]
    ensures IsPair(s, v)
  {
  }

  function Concat(out: seq<string>): string {
    if out == [] then "" else Concat(out[..|out| - 1]) + out[|out| - 1]
  }

  lemma ConcatMore(out: seq<string>, piece: string)
    ensures Concat(out + [piece]) == Concat(out) + piece
  {
    assert (out + [piece])[..|out|] == out;
  }

  lemma PairsOfNumber(n: int)
    requires 0 <= n < 0x1000000
    ensures DigitAt(n, 0x40000) == Digit(n / 0x1000 / 64 % 64) && DigitAt(n, 0x1000) == Digit(n / 0x1000 % 64)
    ensures DigitAt(n, 0x40) == Digit(n % 0x1000 / 64 % 64) && DigitAt(n, 1) == Digit(n % 0x1000 % 64)
  {
    hide Digit, Join;
    var a, b, c, d := Sextets(n);
    var w: int, x: int, y: int, z: int := a, b, c, d;
    Divided(w * 64 + x, w, x, 64);
    Divided(y * 64 + z, y, z, 64);
    assert n / 1 == n;
  }

  lemma EncodedAt(t: Text, i: nat)
    requires i + 3 <= |t|
    ensures var n := Number(t[i], t[i + 1], t[i + 2]);
            Encoded(t[i..]) == [DigitAt(n, 0x40000), DigitAt(n, 0x1000)]
                               + ([DigitAt(n, 0x40), DigitAt(n, 1)] + Encoded(t[i + 3..]))
  {
    hide DigitAt, Number;
    assert t[i..][3..] == t[i + 3..];
  }

  lemma SingleDigits(a: Byte)
    ensures var n, x: int := Number(a, 0, 0), a;
            DigitAt(n, 0x40000) == Digit(x / 4) && DigitAt(n, 0x1000) == Digit(x * 16 % 64)
  {
    hide Digit;
    var x: int := a;
    assert Number(a, 0, 0) / 0x40000 == x / 4;
    assert Number(a, 0, 0) / 0x1000 == x * 16;
  }

  /** The last one or two bytes, with their padding. */
  method EncodeLast(text: Text, full: nat, chars: array<string>, pairs: array<string>) returns (piece: string)
    requires full + 1 == |text| || full + 2 == |text|
    requires chars.Length == 64 && forall v: int :: 0 <= v < 64 ==> chars[v] == [Digit(v)]
    requires pairs.Length == 4096 && forall v: int :: 0 <= v < 4096 ==> IsPair(pairs[v], v)
    ensures piece == Encoded(text[full..])
  {
    hide Digit, DigitAt, Encoded, Number;
    var len := |text|;
    if len - full == 1 {
      var a: int := text[len - 1];
      piece := chars[a / 4] + chars[a * 16 % 64] + "==";
      EncodedSingle(text, full);
      SingleDigits(text[full]);
    } else {
      var quad := Number(text[len - 2], text[len - 1], 0);
      var high := quad / 0x1000;
      assert 0 <= high < 4096;
      piece := pairs[high] + chars[quad / 64 % 64] + "=";
      assert IsPair(pairs[high], high);
      EncodedPair(text, full);
      PairsOfNumber(quad);
      DigitInMiddle(quad);
    }
  }

  /** Encoding by table: two lookups for every three bytes. */
  method Encode(text: Text) returns (r: string)
    ensures r == Encoded(text) && |r| == 4 * ((|text| + 2) / 3) && Decoded(r) == Some(text)
  {
    hide Digit, DigitAt, Encoded, Concat, Decoded, Number;
    var chars := CharTable();
    var pairs := PairTable(chars);
    var len := |text|;
    var out: seq<string> := [];
    var full := len - len % 3;
    var i := 0;
    assert text[0..] == text;
    NothingJoined();
    EmptyFront(Concat(out), Encoded(text));
    while i < full
      invariant 0 <= i <= full && i % 3 == 0
      invariant Concat(out) + Encoded(text[i..]) == Encoded(text)
      modifies {}
    {
      var triple := Number(text[i], text[i + 1], text[i + 2]);
      var high, low := pairs[triple / 0x1000], pairs[triple % 0x1000];
      EncodedAt(text, i);
      PairsOfNumber(triple);
      assert IsPair(high, triple / 0x1000) && IsPair(low, triple % 0x1000);
      ConcatMore(out, high);
      ConcatMore(out + [high], low);
      Assoc(Concat(out), high, low + Encoded(text[i + 3..]));
      Assoc(Concat(out) + high, low, Encoded(text[i + 3..]));
      out := out + [high] + [low];
      i := i + 3;
    }
    if full < len {
      var last := EncodeLast(text, full, chars, pairs);
      ConcatMore(out, last);
      out := out + [last];
    } else {
      assert text[i..] == [];
      NothingEncoded();
      EmptyBack(Concat(out), []);
    }
    r := Concat(out);
    EncodedLength(text);
    RoundTrip(text);
  }

  lemma DigitInMiddle(n: int)
    requires 0 <= n
    ensures DigitAt(n, 0x40) == Digit(n / 64 % 64)
  {
  }

  lemma NothingJoined()
    ensures Concat([]) == ""
  {
  }

  lemma NothingEncoded()
    ensures Encoded([]) == ""
  {
  }

  lemma EncodedSingle(t: Text, i: nat)
    requires i + 1 == |t|
    ensures var n := Number(t[i], 0, 0); Encoded(t[i..]) == [DigitAt(n, 0x40000), DigitAt(n, 0x1000)] + "=="
  {
    hide DigitAt, Number;
  }

  lemma EncodedPair(t: Text, i: nat)
    requires i + 2 == |t|
    ensures var n := Number(t[i], t[i + 1], 0);
            Encoded(t[i..]) == [DigitAt(n, 0x40000), DigitAt(n, 0x1000)] + [DigitAt(n, 0x40)] + "="
  {
    hide DigitAt, Number;
  }

  lemma Foo()
    ensures Encoded([0x66, 0x6f, 0x6f]) == "Zm9v"
  {
    assert [0x66, 0x6f, 0x6f][3..] == [];
  }

  lemma Bar()
    ensures Encoded([0x62, 0x61, 0x72]) == "YmFy"
  {
    assert [0x62, 0x61, 0x72][3..] == [];
  }

  lemma Fo()
    ensures Encoded([]) == "" && Encoded([0x66]) == "Zg==" && Encoded([0x66, 0x6f]) == "Zm8="
  {
  }

  lemma ThreeAndMore(a: Byte, b: Byte, c: Byte, rest: Text)
    ensures Encoded([a, b, c] + rest) == Encoded([a, b, c]) + Encoded(rest)
  {
    hide DigitAt, Number;
    assert ([a, b, c] + rest)[3..] == rest;
    assert [a, b, c][3..] == [];
    EmptyBack(Encoded([a, b, c]), "");
  }

  /** The examples of section 10 of RFC 4648. */
  lemma StandardExamples()
    ensures Encoded([]) == ""
    ensures Encoded([0x66]) == "Zg=="
    ensures Encoded([0x66, 0x6f]) == "Zm8="
    ensures Encoded([0x66, 0x6f, 0x6f]) == "Zm9v"
    ensures Encoded([0x66, 0x6f, 0x6f, 0x62, 0x61, 0x72]) == "Zm9vYmFy"
  {
    hide Encoded;
    Fo();
    Foo();
    Bar();
    ThreeAndMore(0x66, 0x6f, 0x6f, [0x62, 0x61, 0x72]);
    assert [0x66, 0x6f, 0x6f] + [0x62, 0x61, 0x72] == [0x66, 0x6f, 0x6f, 0x62, 0x61, 0x72];
    assert "Zm9v" + "YmFy" == "Zm9vYmFy";
  }
}
