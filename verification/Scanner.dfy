/**
 The byte scanner of the terminal text pipeline: escape sequences, hard newlines
 and grapheme clusters over arbitrary, possibly malformed, byte strings.

 These functions read from the front of a string; module ScanLoops holds the methods
 with indexes and loops, each proved against them.
 */
module Scanner {
  import opened Bytes

  /** The generated Unicode tables, left uninterpreted. The accessors below add the
      guards the C code tests before it consults them. */
  datatype Tables = Tables(wcwidth: int -> int, linker: int -> bool, consonant: int -> bool)

  const ZWNJ := 0x200c
  const ZWJ := 0x200d
  const UNICODE_MAX := 0x10ffff

  function WcWidth(u: Tables, cp: nat): int {
    if 0x20 <= cp <= 0x7e then 1 else u.wcwidth(cp)
  }

  /** No linker in the table is below U+094D. */
  predicate IsLinker(u: Tables, cp: nat) {
    0x094d <= cp && u.linker(cp)
  }

  predicate IsConsonant(u: Tables, cp: nat) {
    0x0915 <= cp <= 0x11f33 && u.consonant(cp)
  }

  predicate IsRegionalIndicator(cp: nat) {
    0x1f1e6 <= cp <= 0x1f1ff
  }

  predicate IsControl(cp: nat) {
    cp < 0x20 || 0x7f <= cp <= 0x9f
  }

  function CodepointWidth(u: Tables, cp: nat): nat {
    if cp == TAB then 3
    else if cp > UNICODE_MAX then 1
    else if IsControl(cp) then 0
    else
      var w := WcWidth(u, cp);
      if w <= 0 then 0 else if w >= 2 then 2 else 1
  }

  predicate IsModifier(u: Tables, cp: nat) {
    && cp != ZWJ && cp <= UNICODE_MAX && !IsControl(cp)
    && (0x1f3fb <= cp <= 0x1f3ff || WcWidth(u, cp) == 0)
  }

  // ---------------------------------------------------------------- UTF-8

  datatype Decoded = Decoded(cp: nat, n: nat)

  function At(s: Text, k: nat): Byte {
    if k < |s| then s[k] else 0
  }

  predicate IsContinuation(b: Byte) {
    0x80 <= b <= 0xbf
  }

  /** The code point at the front of s and the bytes it takes; a byte that starts no
      well-formed sequence stands for itself. */
  function Decode(s: Text): (d: Decoded)
    requires s != []
    ensures 1 <= d.n <= |s|
  {
    var b1, b2, b3, b4 := s[0], At(s, 1), At(s, 2), At(s, 3);
    if b1 < 0x80 then Decoded(b1, 1)
    else if 0xc2 <= b1 <= 0xdf && IsContinuation(b2) then
      Decoded((b1 - 0xc0) * 0x40 + (b2 - 0x80), 2)
    else if 0xe0 <= b1 <= 0xef && IsContinuation(b2) && IsContinuation(b3) then
      Decoded((b1 - 0xe0) * 0x1000 + (b2 - 0x80) * 0x40 + (b3 - 0x80), 3)
    else if 0xf0 <= b1 <= 0xf4 && IsContinuation(b2) && IsContinuation(b3) && IsContinuation(b4) then
      Decoded((b1 - 0xf0) * 0x40000 + (b2 - 0x80) * 0x1000 + (b3 - 0x80) * 0x40 + (b4 - 0x80), 4)
    else Decoded(b1, 1)
  }

  // ---------------------------------------------------------------- escapes

  predicate IsCsiFinal(b: Byte) {
    0x40 <= b <= 0x7e
  }

  /** Bytes up to and including the CSI final byte, or all of them. */
  function CsiLen(s: Text): (n: nat)
    ensures n <= |s|
  {
    if s == [] then 0 else if IsCsiFinal(s[0]) then 1 else 1 + CsiLen(s[1..])
  }

  predicate AtStringTerminator(s: Text) {
    |s| >= 2 && s[0] == ESC && s[1] == '\\' as int
  }

  /** Bytes up to and including BEL or ESC \, or all of them. */
  function StringLen(s: Text): (n: nat)
    ensures n <= |s|
  {
    if s == [] then 0
    else if s[0] == BEL then 1
    else if AtStringTerminator(s) then 2
    else 1 + StringLen(s[1..])
  }

  function EscapeLen(s: Text): (n: nat)
    requires s != [] && s[0] == ESC
    ensures 1 <= n <= |s|
  {
    if |s| == 1 then 1
    else if s[1] == '[' as int then 2 + CsiLen(s[2..])
    else if s[1] == ']' as int || s[1] == '_' as int then 2 + StringLen(s[2..])
    else 2
  }

  predicate AtNewline(s: Text) {
    s != [] && (s[0] == CARRIAGE_RETURN || s[0] == NEWLINE)
  }

  function NewlineLen(s: Text): (n: nat)
    requires AtNewline(s)
    ensures 1 <= n <= |s|
  {
    if s[0] == CARRIAGE_RETURN && |s| >= 2 && s[1] == NEWLINE then 2 else 1
  }

  // ---------------------------------------------------------------- clusters

  /** What the cluster scanner remembers between code points. `pair` holds just after
      an opening regional indicator, the only place where a second one joins. */
  datatype Scan = Scan(width: nat, indic: bool, chain: bool, linked: bool, zwj: bool, pair: bool)

  function Start(u: Tables, cp: nat): Scan {
    Scan(if IsRegionalIndicator(cp) then 2 else CodepointWidth(u, cp),
         IsConsonant(u, cp), IsConsonant(u, cp), false, false, IsRegionalIndicator(cp))
  }

  function Max(a: nat, b: nat): nat {
    if a < b then b else a
  }

  /** The scanner after one more code point, or None when that code point starts the
      next cluster. After a pending joiner everything is swallowed. */
  function Extend(u: Tables, st: Scan, cp: nat): Option<Scan> {
    if st.pair && IsRegionalIndicator(cp) then Some(st.(pair := false))
    else
      var st := st.(pair := false);
      if st.chain && IsLinker(u, cp) then Some(st.(linked := true))
      else if cp == ZWNJ then Some(st.(chain := false, linked := false, zwj := false))
      else if IsModifier(u, cp) then Some(st)
      else if cp == ZWJ then Some(if st.indic then st else st.(zwj := true))
      else if st.chain && st.linked && IsConsonant(u, cp) then
        Some(st.(width := st.width + CodepointWidth(u, cp), linked := false))
      else if st.zwj then
        Some(st.(width := Max(Max(st.width, CodepointWidth(u, cp)), 2), zwj := false))
      else None
  }

  datatype Ran = Ran(n: nat, st: Scan)

  /** Runs the scanner over as much of s as it accepts. */
  function Run(u: Tables, st: Scan, s: Text): (r: Ran)
    ensures r.n <= |s|
    decreases |s|
  {
    if s == [] then Ran(0, st)
    else
      var d := Decode(s);
      match Extend(u, st, d.cp)
      case None => Ran(0, st)
      case Some(next) =>
        var r := Run(u, next, s[d.n..]);
        Ran(d.n + r.n, r.st)
  }

  function Cluster(u: Tables, s: Text): (r: Ran)
    requires s != []
    ensures 1 <= r.n <= |s|
  {
    var d := Decode(s);
    var r := Run(u, Start(u, d.cp), s[d.n..]);
    Ran(d.n + r.n, r.st)
  }

  // ---------------------------------------------------------------- tokens

  datatype Token =
    | Escape(bytes: Text)
    | Newline(bytes: Text)
    | Glyph(bytes: Text, width: nat)

  /** The token at the front of s. Hard newlines are tokens of their own only for the
      wrapper (`nl`); the width scanner sees them as zero-width clusters. */
  function Next(u: Tables, nl: bool, s: Text): (t: Token)
    requires s != []
    ensures 1 <= |t.bytes| <= |s| && t.bytes == s[..|t.bytes|]
  {
    if s[0] == ESC then Escape(s[..EscapeLen(s)])
    else if nl && AtNewline(s) then Newline(s[..NewlineLen(s)])
    else
      var c := Cluster(u, s);
      Glyph(s[..c.n], c.st.width)
  }

  function Tokens(u: Tables, nl: bool, s: Text): seq<Token>
    decreases |s|
  {
    if s == [] then []
    else
      var t := Next(u, nl, s);
      [t] + Tokens(u, nl, s[|t.bytes|..])
  }

  function Flat(ts: seq<Token>): Text {
    if ts == [] then [] else ts[0].bytes + Flat(ts[1..])
  }

  function TokenWidth(t: Token): nat {
    if t.Glyph? then t.width else 0
  }

  function Width(ts: seq<Token>): nat {
    if ts == [] then 0 else TokenWidth(ts[0]) + Width(ts[1..])
  }

  function VisibleWidth(u: Tables, s: Text): nat {
    Width(Tokens(u, false, s))
  }
}
