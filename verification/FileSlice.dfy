/**
 Reading a slice of a file's lines block by block, against what the slice is of the whole.
 */
module FileSlice {
  import opened Bytes
  import opened Seqs

  const BLOCK := 8192
  const FIRST_CAP := 4096
  const READ_MAX := 262144
  const WRITE_MAX := 16777216

  // ---------------------------------------------------------------- lines

  /** The length of the first line, with its newline if it has one. */
  function LineLength(t: Text): (k: nat)
    requires t != []
    ensures 0 < k <= |t|
    ensures forall i :: 0 <= i < k - 1 ==> t[i] != NEWLINE
    ensures t[k - 1] != NEWLINE ==> k == |t|
  {
    if t[0] == NEWLINE || |t| == 1 then 1 else 1 + LineLength(t[1..])
  }

  function Lines(t: Text): seq<Text>
    decreases |t|
  {
    if t == [] then [] else [t[..LineLength(t)]] + Lines(t[LineLength(t)..])
  }

  function Join(lines: seq<Text>): Text
    decreases |lines|
  {
    if lines == [] then [] else lines[0] + Join(lines[1..])
  }

  /** The lines make up the file. */
  lemma {:induction false} LinesJoin(t: Text)
    ensures Join(Lines(t)) == t
    decreases |t|
  {
    if t != [] {
      LinesJoin(t[LineLength(t)..]);
      assert Lines(t)[1..] == Lines(t[LineLength(t)..]);
    }
  }

  function AtMost(k: int, n: nat): nat
    requires k >= 0
  {
    if k < n then k else n
  }

  function Stripped(t: Text): Text {
    if t != [] && t[|t| - 1] == NEWLINE then Stripped(t[..|t| - 1]) else t
  }

  // ---------------------------------------------------------------- the slice

  datatype Slice = Slice(text: Text, totalLines: nat, nextOffset: Option<nat>, truncated: bool, truncatedBytes: bool)

  /** The lines from offset on, at most limit of them. */
  function Wanted(file: Text, offset: nat, limit: nat): Text {
    var lines := Lines(file);
    Join(lines[AtMost(offset, |lines|)..AtMost(offset + limit, |lines|)])
  }

  /** The slice of a whole file, in one look. */
  function SliceOf(file: Text, offset: nat, limit: nat, maxBytes: nat): Slice {
    var wanted, lines := Wanted(file, offset, limit), Lines(file);
    var cut := |wanted| > maxBytes;
    var more := offset + limit < |lines|;
    Slice(Stripped(if cut then wanted[..maxBytes] else wanted), |lines|,
          if more then Some(offset + limit) else None, more || cut, cut)
  }

  /** Arguments out of range are replaced. */
  function Offset(offset: int): nat {
    if offset < 0 then 0 else offset
  }

  function Limit(limit: int): nat {
    if limit <= 0 then 1 else limit
  }

  function MaxBytes(maxBytes: int): nat {
    if maxBytes <= 0 || maxBytes > WRITE_MAX then READ_MAX else maxBytes
  }

  // ---------------------------------------------------------------- what that means

  /** A line is not empty, and only its last byte may be a newline. */
  predicate IsLine(line: Text) {
    line != [] && forall i :: 0 <= i < |line| - 1 ==> line[i] != 0x0a
  }

  /** The lines of a file: only the last one may lack its newline. */
  ghost predicate AreLines(lines: seq<Text>, file: Text) {
    && Join(lines) == file
    && (forall i :: 0 <= i < |lines| ==> IsLine(lines[i]))
    && (forall i :: 0 <= i < |lines| - 1 ==> lines[i][|lines[i]| - 1] == 0x0a)
  }

  lemma {:induction false} LinesExactly(file: Text)
    ensures AreLines(Lines(file), file)
    decreases |file|
  {
    LinesJoin(file);
    if file != [] {
      var k := LineLength(file);
      LinesExactly(file[k..]);
      var rest := Lines(file[k..]);
      assert Lines(file) == [file[..k]] + rest;
      forall i | 0 <= i < |Lines(file)| - 1
        ensures Lines(file)[i][|Lines(file)[i]| - 1] == 0x0a
      {
        if i > 0 {
          assert Lines(file)[i] == rest[i - 1];
        }
      }
    }
  }

  /** A file has only one list of lines. */
  lemma {:induction false} LinesUnique(a: seq<Text>, b: seq<Text>, file: Text)
    requires AreLines(a, file) && AreLines(b, file)
    ensures a == b
    decreases |a|
  {
    if a != [] && b != [] {
      FirstLineSame(a, b, file);
      FirstLineSame(b, a, file);
      var k := |a[0]|;
      assert a[0] == file[..k] == b[0];
      RestAreLines(a, file);
      RestAreLines(b, file);
      LinesUnique(a[1..], b[1..], file[k..]);
      assert a == [a[0]] + a[1..] && b == [b[0]] + b[1..];
    }
  }

  lemma RestAreLines(a: seq<Text>, file: Text)
    requires AreLines(a, file) && a != []
    ensures AreLines(a[1..], file[|a[0]|..]) && file[..|a[0]|] == a[0]
  {
    assert file == a[0] + Join(a[1..]);
    var rest := a[1..];
    forall i | 0 <= i < |rest|
      ensures IsLine(rest[i]) && (i < |rest| - 1 ==> rest[i][|rest[i]| - 1] == 0x0a)
    {
      assert IsLine(a[i + 1]);
    }
  }

  lemma FirstLineSame(a: seq<Text>, b: seq<Text>, file: Text)
    requires AreLines(a, file) && AreLines(b, file) && a != [] && b != []
    ensures |a[0]| <= |b[0]|
  {
    assert IsLine(a[0]) && IsLine(b[0]);
    RestAreLines(a, file);
    RestAreLines(b, file);
  }

  /** Trailing newlines are dropped, and nothing else. */
  predicate IsStripped(text: Text, whole: Text) {
    && text <= whole
    && (text != [] ==> text[|text| - 1] != 0x0a)
    && forall i :: |text| <= i < |whole| ==> whole[i] == 0x0a
  }

  lemma {:induction false} StrippedIs(t: Text)
    ensures IsStripped(Stripped(t), t)
  {
    if t != [] && t[|t| - 1] == NEWLINE {
      StrippedIs(t[..|t| - 1]);
    }
  }

  /** The slice of a file: the wanted lines, as many bytes as allowed, without the newlines at
      the end; all lines are counted, and what is left out is told. */
  ghost predicate IsSlice(r: Slice, file: Text, offset: nat, limit: nat, maxBytes: nat) {
    exists lines: seq<Text> ::
      && AreLines(lines, file)
      && var from := if offset < |lines| then offset else |lines|;
         var to := if offset + limit < |lines| then offset + limit else |lines|;
         var wanted := Join(lines[from..to]);
         && IsStripped(r.text, if |wanted| > maxBytes then wanted[..maxBytes] else wanted)
         && r.totalLines == |lines|
         && r.nextOffset == (if offset + limit < |lines| then Some(offset + limit) else None)
         && r.truncatedBytes == (|wanted| > maxBytes)
         && r.truncated == (offset + limit < |lines| || |wanted| > maxBytes)
  }

  lemma SliceMeans(file: Text, offset: nat, limit: nat, maxBytes: nat)
    ensures IsSlice(SliceOf(file, offset, limit, maxBytes), file, offset, limit, maxBytes)
  {
    hide Lines, Stripped, AreLines, IsStripped, Join;
    var wanted := Wanted(file, offset, limit);
    LinesExactly(file);
    StrippedIs(if |wanted| > maxBytes then wanted[..maxBytes] else wanted);
    assert AreLines(Lines(file), file);
  }

  // ---------------------------------------------------------------- byte by byte

  function Newlines(t: Text): nat {
    if t == [] then 0 else Newlines(t[..|t| - 1]) + if t[|t| - 1] == NEWLINE then 1 else 0
  }

  /** The bytes with at least offset and less than offset + limit newlines before them. */
  function Picked(t: Text, offset: int, limit: nat): Text {
    if t == [] then []
    else
      var before := t[..|t| - 1];
      Picked(before, offset, limit)
      + if offset <= Newlines(before) < offset + limit then [t[|t| - 1]] else []
  }

  lemma {:induction false} NewlinesAppend(a: Text, b: Text)
    ensures Newlines(a + b) == Newlines(a) + Newlines(b)
    decreases |b|
  {
    if b == [] {
      EmptyBack(a, b);
    } else {
      assert (a + b)[..|a + b| - 1] == a + b[..|b| - 1];
      NewlinesAppend(a, b[..|b| - 1]);
    }
  }

  lemma {:induction false} PickedAppend(a: Text, b: Text, offset: int, limit: nat)
    ensures Picked(a + b, offset, limit) == Picked(a, offset, limit) + Picked(b, offset - Newlines(a), limit)
    decreases |b|
  {
    if b == [] {
      EmptyBack(a, b);
      EmptyBack(Picked(a, offset, limit), []);
    } else {
      var c := b[..|b| - 1];
      var last := if offset <= Newlines(a + c) < offset + limit then [b[|b| - 1]] else [];
      assert (a + b)[..|a + b| - 1] == a + c;
      PickedAppend(a, c, offset, limit);
      NewlinesAppend(a, c);
      Assoc(Picked(a, offset, limit), Picked(c, offset - Newlines(a), limit), last);
    }
  }

  /** A piece of one line is picked as a whole, or not at all. */
  lemma {:induction false} SpanPicked(t: Text, offset: int, limit: nat)
    requires forall i :: 0 <= i < |t| - 1 ==> t[i] != NEWLINE
    ensures Picked(t, offset, limit) == if offset <= 0 < offset + limit then t else []
    ensures Newlines(t) == if t != [] && t[|t| - 1] == NEWLINE then 1 else 0
  {
    if t != [] {
      var before := t[..|t| - 1];
      SpanPicked(before, offset, limit);
      Snoc(t);
      assert before != [] ==> before[|before| - 1] == t[|t| - 2];
      assert Newlines(before) == 0;
    }
  }

  /** The lines i with offset <= i < offset + limit. */
  function Chosen(lines: seq<Text>, offset: int, limit: nat): seq<Text>
    decreases |lines|
  {
    if lines == [] then []
    else (if offset <= 0 < offset + limit then [lines[0]] else []) + Chosen(lines[1..], offset - 1, limit)
  }

  lemma {:induction false} ChosenFromStart(lines: seq<Text>, offset: int, limit: nat)
    requires offset <= 0
    ensures Chosen(lines, offset, limit) == lines[..AtMost(if offset + limit < 0 then 0 else offset + limit, |lines|)]
    decreases |lines|
  {
    if lines != [] {
      ChosenFromStart(lines[1..], offset - 1, limit);
      var b := AtMost(if offset + limit < 0 then 0 else offset + limit, |lines|);
      if b > 0 {
        assert lines[..b] == [lines[0]] + lines[1..][..b - 1];
      }
    }
  }

  lemma NothingToChoose(offset: nat, limit: nat)
    ensures Chosen([], offset, limit) == []
  {
  }

  lemma FirstSkipped(lines: seq<Text>, offset: nat, limit: nat)
    requires lines != [] && offset > 0
    ensures Chosen(lines, offset, limit) == Chosen(lines[1..], offset - 1, limit)
  {
    EmptyFront([], Chosen(lines[1..], offset - 1, limit));
  }

  lemma TailSlice(lines: seq<Text>, a: nat, b: nat)
    requires 1 <= a <= b <= |lines|
    ensures lines[1..][a - 1..b - 1] == lines[a..b]
  {
  }

  lemma {:induction false} ChosenIsSlice(lines: seq<Text>, offset: nat, limit: nat)
    ensures Chosen(lines, offset, limit) == lines[AtMost(offset, |lines|)..AtMost(offset + limit, |lines|)]
    decreases |lines|
  {
    hide Chosen;
    if offset == 0 {
      ChosenFromStart(lines, offset, limit);
    } else if lines == [] {
      NothingToChoose(offset, limit);
    } else {
      FirstSkipped(lines, offset, limit);
      ChosenIsSlice(lines[1..], offset - 1, limit);
      var a, b := AtMost(offset, |lines|), AtMost(offset + limit, |lines|);
      TailSlice(lines, a, b);
    }
  }

  lemma JoinCons(line: Text, take: bool, rest: seq<Text>)
    ensures Join((if take then [line] else []) + rest) == (if take then line else []) + Join(rest)
  {
    if take {
      assert ([line] + rest)[1..] == rest;
    } else {
      EmptyFront([], rest);
      EmptyFront([], Join(rest));
    }
  }

  /** The first line, and what comes after it. */
  lemma FirstLine(t: Text, offset: int, limit: nat)
    requires t != []
    ensures var k := LineLength(t);
            && t == t[..k] + t[k..]
            && Picked(t[..k], offset, limit) == (if offset <= 0 < offset + limit then t[..k] else [])
            && Newlines(t[..k]) == (if t[k - 1] == NEWLINE then 1 else 0)
            && (t[k - 1] != NEWLINE ==> t[k..] == [])
  {
    hide Picked, Newlines;
    SpanPicked(t[..LineLength(t)], offset, limit);
  }

  lemma FirstPicked(t: Text, offset: int, limit: nat)
    requires t != []
    ensures var k := LineLength(t);
            Picked(t, offset, limit) ==
            (if offset <= 0 < offset + limit then t[..k] else []) + Picked(t[k..], offset - 1, limit)
  {
    hide Picked, Newlines, LineLength;
    var k := LineLength(t);
    var a, b := t[..k], t[k..];
    FirstLine(t, offset, limit);
    PickedAppend(a, b, offset, limit);
    if t[k - 1] != NEWLINE {
      NothingChosen(offset - Newlines(a), limit);
      NothingChosen(offset - 1, limit);
      assert b == [];
    }
  }

  lemma {:induction false} PickedIsChosen(t: Text, offset: int, limit: nat)
    ensures Picked(t, offset, limit) == Join(Chosen(Lines(t), offset, limit))
    decreases |t|
  {
    hide Join, Chosen, Picked, Lines;
    if t != [] {
      var k := LineLength(t);
      PickedIsChosen(t[k..], offset - 1, limit);
      FirstPicked(t, offset, limit);
      LinesCons(t, offset, limit);
    } else {
      NothingChosen(offset, limit);
    }
  }

  lemma {:induction false} LinesCounted(t: Text)
    ensures |Lines(t)| == Newlines(t) + if t != [] && t[|t| - 1] != NEWLINE then 1 else 0
    decreases |t|
  {
    if t != [] {
      hide Join, Chosen, Picked, Newlines;
      var k := LineLength(t);
      LinesCounted(t[k..]);
      NewlinesAppend(t[..k], t[k..]);
      FirstLine(t, 0, 0);
      NothingChosen(0, 0);
    }
  }

  lemma LinesCons(t: Text, offset: int, limit: nat)
    requires t != []
    ensures var k := LineLength(t);
            && |Lines(t)| == 1 + |Lines(t[k..])|
            && Join(Chosen(Lines(t), offset, limit)) ==
               (if offset <= 0 < offset + limit then t[..k] else []) + Join(Chosen(Lines(t[k..]), offset - 1, limit))
  {
    hide Join;
    var k := LineLength(t);
    assert Lines(t)[1..] == Lines(t[k..]);
    JoinCons(t[..k], offset <= 0 < offset + limit, Chosen(Lines(t[k..]), offset - 1, limit));
  }

  lemma NothingChosen(offset: int, limit: nat)
    ensures Join(Chosen(Lines([]), offset, limit)) == [] == Picked([], offset, limit)
    ensures Lines([]) == [] && Newlines([]) == 0
  {
  }

  /** What is picked byte by byte is the wanted lines, and counting newlines counts lines. */
  lemma PickedIsWanted(file: Text, offset: nat, limit: nat)
    ensures Picked(file, offset, limit) == Wanted(file, offset, limit)
    ensures |Lines(file)| == Newlines(file) + if file != [] && file[|file| - 1] != NEWLINE then 1 else 0
  {
    hide Join, Chosen, Lines, Picked;
    PickedIsChosen(file, offset, limit);
    LinesCounted(file);
    ChosenIsSlice(Lines(file), offset, limit);
  }

  // ---------------------------------------------------------------- blocks

  type Block = t: Text | 1 <= |t| <= BLOCK witness [0]

  /** What the reads bring: they stop after the first block that is not full. */
  function Arrived(blocks: seq<Block>): Text
    decreases |blocks|
  {
    if blocks == [] then []
    else blocks[0] + if |blocks[0]| < BLOCK then [] else Arrived(blocks[1..])
  }

  function Capped(t: Text, maxBytes: nat): Text {
    if |t| <= maxBytes then t else t[..maxBytes]
  }

  /** A growing buffer for the text, cut off at the limit. */
  class SliceBuffer {
    var data: array<Byte>
    var len: nat
    var truncated: bool
    const maxBytes: nat

    ghost predicate Valid()
      reads this, data
    {
      len < data.Length && len <= maxBytes && (data.Length == FIRST_CAP || data.Length <= maxBytes + 1)
    }

    /** The buffer holds what was picked so far, up to the limit. */
    ghost predicate Holds(picked: Text)
      reads this, data
      requires Valid()
    {
      data[..len] == Capped(picked, maxBytes) && (truncated <==> |picked| > maxBytes)
    }

    constructor (maxBytes: nat)
      ensures Valid() && Holds([]) && fresh(data) && this.maxBytes == maxBytes
    {
      data, len, truncated := new Byte[FIRST_CAP](i => 0), 0, false;
      this.maxBytes := maxBytes;
    }

    /** Makes room for more bytes, doubling but never past the limit and a terminator. */
    method Grow(want: nat)
      requires Valid() && len + want <= maxBytes
      modifies this
      ensures Valid() && len + want < data.Length
      ensures data[..len] == old(data[..len]) && len == old(len) && truncated == old(truncated)
      ensures data == old(data) || fresh(data)
      ensures data.Length == if len + want < old(data.Length) then old(data.Length)
                             else AtMost(Doubled(old(data.Length), len + want + 1), maxBytes + 1)
    {
      if len + want + 1 > data.Length {
        var next := data.Length;
        while len + want + 1 > next
          invariant next >= data.Length > 0
          invariant Doubled(next, len + want + 1) == Doubled(data.Length, len + want + 1)
          decreases len + want - next
        {
          next := next * 2;
        }
        if next > maxBytes + 1 {
          next := maxBytes + 1;
        }
        data := Moved(data, len, next);
      }
    }

    /** Takes a span of the window, as much of it as still fits. */
    method Take(span: Text, ghost picked: Text)
      requires Valid() && Holds(picked) && span != []
      modifies this, data
      ensures Valid() && Holds(picked + span)
      ensures data == old(data) || fresh(data)
    {
      if truncated {
        TakenFull(picked, span, maxBytes);
        return;
      }
      var want := |span|;
      if len >= maxBytes {
        truncated := true;
        want := 0;
      } else if want > maxBytes - len {
        truncated := true;
        want := maxBytes - len;
      }
      if want > 0 {
        Put(span[..want]);
      }
      Taken(picked, span, maxBytes, want);
    }

    /** Puts bytes behind the contents. */
    method Put(piece: Text)
      requires Valid() && len + |piece| <= maxBytes
      modifies this, data
      ensures Valid() && truncated == old(truncated) && len == old(len) + |piece|
      ensures data[..len] == old(data[..len]) + piece
      ensures data == old(data) || fresh(data)
    {
      ghost var kept := data[..len];
      Grow(|piece|);
      var k := len;
      forall i | 0 <= i < |piece| {
        data[k + i] := piece[i];
      }
      len := len + |piece|;
      assert data[..k] == kept;
      assert data[..len] == kept + piece;
    }

    /** Drops trailing newlines and puts the terminator. */
    method Finish() returns (text: Text)
      requires Valid()
      modifies this, data
      ensures text == Stripped(old(data[..len]))
    {
      ghost var whole := data[..len];
      while len > 0 && data[len - 1] == NEWLINE
        invariant len < data.Length && data == old(data) && data[..] == old(data[..])
        invariant Stripped(data[..len]) == Stripped(whole)
        decreases len
      {
        assert data[..len][..len - 1] == data[..len - 1];
        len := len - 1;
      }
      text := data[..len];
      data[len] := 0;
    }
  }

  lemma TakenFull(picked: Text, span: Text, maxBytes: nat)
    requires |picked| > maxBytes
    ensures Capped(picked + span, maxBytes) == Capped(picked, maxBytes)
  {
  }

  lemma Taken(picked: Text, span: Text, maxBytes: nat, want: nat)
    requires |picked| <= maxBytes
    requires want == if |span| <= maxBytes - |picked| then |span| else maxBytes - |picked|
    ensures Capped(picked + span, maxBytes) == picked + span[..want]
  {
  }

  /** The end of the line that a position lies in, or of the block. */
  method SpanLength(block: Text, pos: nat) returns (span: nat, hasNewline: bool)
    requires pos < |block|
    ensures 0 < span <= |block| - pos
    ensures forall i :: pos <= i < pos + span - 1 ==> block[i] != NEWLINE
    ensures hasNewline <==> block[pos + span - 1] == NEWLINE
    ensures !hasNewline ==> pos + span == |block|
  {
    span, hasNewline := 0, false;
    while pos + span < |block| && !hasNewline
      invariant 0 <= span <= |block| - pos
      invariant forall i :: pos <= i < pos + span - 1 ==> block[i] != NEWLINE
      invariant span > 0 ==> (hasNewline <==> block[pos + span - 1] == NEWLINE)
      invariant span == 0 ==> !hasNewline
      decreases |block| - pos - span
    {
      hasNewline := block[pos + span] == NEWLINE;
      span := span + 1;
    }
  }

  /** One span more: what is picked of it, and the line count after it. */
  lemma SpanRead(seen: Text, span: Text, offset: nat, limit: nat)
    requires span != [] && forall i :: 0 <= i < |span| - 1 ==> span[i] != NEWLINE
    ensures var line := Newlines(seen);
            && Picked(seen + span, offset, limit)
               == (if offset <= line < offset + limit then Picked(seen, offset, limit) + span
                   else Picked(seen, offset, limit))
            && Newlines(seen + span) == line + if span[|span| - 1] == NEWLINE then 1 else 0
  {
    hide Picked, Newlines;
    PickedAppend(seen, span, offset, limit);
    NewlinesAppend(seen, span);
    SpanPicked(span, offset - Newlines(seen), limit);
    EmptyBack(Picked(seen, offset, limit), []);
  }

  /** Reads one block, span by span; the line number counts the newlines so far. */
  method ReadBlock(b: SliceBuffer, block: Block, offset: nat, limit: nat, line: nat, ghost seen: Text)
    returns (next: nat)
    requires b.Valid() && b.Holds(Picked(seen, offset, limit)) && line == Newlines(seen)
    modifies b, b.data
    ensures b.Valid() && b.Holds(Picked(seen + block, offset, limit)) && next == Newlines(seen + block)
    ensures b.data == old(b.data) || fresh(b.data)
  {
    hide Picked, Newlines, Capped;
    var pos := 0;
    next := line;
    EmptyBack(seen, block[..pos]);
    while pos < |block|
      invariant 0 <= pos <= |block| && (b.data == old(b.data) || fresh(b.data))
      invariant b.Valid() && b.Holds(Picked(seen + block[..pos], offset, limit))
      invariant next == Newlines(seen + block[..pos])
    {
      var length, hasNewline := SpanLength(block, pos);
      ghost var before := seen + block[..pos];
      var span := block[pos..pos + length];
      SpanRead(before, span, offset, limit);
      if next >= offset && next - offset < limit {
        b.Take(span, Picked(before, offset, limit));
      }
      assert block[..pos + length] == block[..pos] + span;
      Assoc(seen, block[..pos], span);
      pos := pos + length;
      if hasNewline {
        next := next + 1;
      }
    }
    assert block[..pos] == block;
  }

  lemma ArrivedNext(blocks: seq<Block>, i: nat, seen: Text)
    requires i < |blocks|
    ensures seen + Arrived(blocks[i..]) ==
            seen + blocks[i] + if |blocks[i]| < BLOCK then [] else Arrived(blocks[i + 1..])
  {
    DropDrop(blocks, i, 1);
    Assoc(seen, blocks[i], if |blocks[i]| < BLOCK then [] else Arrived(blocks[i + 1..]));
  }

  /** The slice of a file, however it arrives in blocks; none if reading it failed. */
  method ReadFileSlice(blocks: seq<Block>, failed: bool, offsetArg: int, limitArg: int, maxBytesArg: int)
    returns (r: Option<Slice>)
    ensures r == if failed then None
                 else Some(SliceOf(Arrived(blocks), Offset(offsetArg), Limit(limitArg), MaxBytes(maxBytesArg)))
    ensures r.None? <==> failed
    ensures r.Some? ==> IsSlice(r.value, Arrived(blocks),
                                if offsetArg < 0 then 0 else offsetArg,
                                if limitArg <= 0 then 1 else limitArg,
                                if maxBytesArg <= 0 || maxBytesArg > 16777216 then 262144 else maxBytesArg)
  {
    hide IsSlice, Arrived, Picked, Newlines, Lines, Wanted, Stripped, SliceOf, Capped;
    var offset := if offsetArg < 0 then 0 else offsetArg;
    var limit := if limitArg <= 0 then 1 else limitArg;
    var maxBytes := if maxBytesArg <= 0 || maxBytesArg > WRITE_MAX then READ_MAX else maxBytesArg;
    var b := new SliceBuffer(maxBytes);
    var line, i, sawAny, lastNewline, more := 0, 0, false, false, true;
    ghost var seen: Text := [];
    NothingPicked(offset, limit);
    NothingArrived(blocks, seen);
    while more && i < |blocks|
      invariant 0 <= i <= |blocks| && fresh(b) && fresh(b.data) && b.maxBytes == maxBytes
      invariant b.Valid() && b.Holds(Picked(seen, offset, limit)) && line == Newlines(seen)
      invariant sawAny <==> seen != []
      invariant sawAny ==> (lastNewline <==> seen[|seen| - 1] == NEWLINE)
      invariant Arrived(blocks) == seen + if more then Arrived(blocks[i..]) else []
      decreases |blocks| - i
    {
      var block := blocks[i];
      ArrivedNext(blocks, i, seen);
      line := ReadBlock(b, block, offset, limit, line, seen);
      sawAny, lastNewline := true, block[|block| - 1] == NEWLINE;
      more := |block| >= BLOCK;
      seen := seen + block;
      i := i + 1;
    }
    NothingLeft(blocks, i, more, seen);
    if failed {
      return None;
    }
    PickedIsWanted(seen, offset, limit);
    var totalLines := if sawAny && !lastNewline then line + 1 else line;
    var slice := MakeSlice(b, offset, limit, totalLines, seen);
    SliceMeans(seen, offset, limit, maxBytes);
    r := Some(slice);
  }

  /** The answer, once all of the file was seen. */
  method MakeSlice(b: SliceBuffer, offset: nat, limit: nat, totalLines: nat, ghost file: Text) returns (r: Slice)
    requires b.Valid() && b.Holds(Wanted(file, offset, limit)) && totalLines == |Lines(file)|
    modifies b, b.data
    ensures r == SliceOf(file, offset, limit, b.maxBytes)
  {
    hide Lines, Wanted, Stripped;
    var truncated := b.truncated;
    var text := b.Finish();
    if offset < totalLines && limit < totalLines - offset {
      r := Slice(text, totalLines, Some(offset + limit), true, truncated);
    } else {
      r := Slice(text, totalLines, None, truncated, truncated);
    }
  }

  lemma NothingPicked(offset: nat, limit: nat)
    ensures Picked([], offset, limit) == [] && Newlines([]) == 0
  {
  }

  lemma NothingArrived(blocks: seq<Block>, seen: Text)
    requires seen == []
    ensures Arrived(blocks) == seen + Arrived(blocks[0..])
  {
    assert blocks[0..] == blocks;
    EmptyFront(seen, Arrived(blocks));
  }

  lemma NothingLeft(blocks: seq<Block>, i: nat, more: bool, seen: Text)
    requires i <= |blocks| && (more ==> i == |blocks|)
    ensures (seen + if more then Arrived(blocks[i..]) else []) == seen
  {
    EmptyBack(seen, []);
  }

  // ---------------------------------------------------------------- blocks do not matter

  function Chop(file: Text): (blocks: seq<Block>)
    decreases |file|
  {
    if file == [] then []
    else if |file| <= BLOCK then [file]
    else [file[..BLOCK]] + Chop(file[BLOCK..])
  }

  function Whole(blocks: seq<Block>): Text
    decreases |blocks|
  {
    if blocks == [] then [] else blocks[0] + Whole(blocks[1..])
  }

  /** When only the last block may be short, all of the file arrives. */
  lemma {:induction false} AllArrives(blocks: seq<Block>)
    requires forall i :: 0 <= i < |blocks| - 1 ==> |blocks[i]| == BLOCK
    ensures Arrived(blocks) == Whole(blocks)
    decreases |blocks|
  {
    if blocks != [] {
      if |blocks| > 1 {
        assert |blocks[0]| == BLOCK;
      }
      AllArrives(blocks[1..]);
    }
  }

  /** Any file arrives whole in the blocks that full reads cut it into. */
  lemma {:induction false} ChoppedArrives(file: Text)
    ensures Arrived(Chop(file)) == file
    decreases |file|
  {
    if |file| > BLOCK {
      ChoppedArrives(file[BLOCK..]);
      assert Chop(file)[1..] == Chop(file[BLOCK..]);
      assert file == file[..BLOCK] + file[BLOCK..];
    } else {
      EmptyBack(file, []);
    }
  }

  // ---------------------------------------------------------------- slice by slice

  /** Following next_offset walks through the whole file: each slice starts where the one
      before stopped, and two neighbouring windows make up one of both lengths. */
  lemma NextSliceContinues(file: Text, offset: nat, limit: nat, more: nat)
    ensures Wanted(file, offset, limit + more) == Wanted(file, offset, limit) + Wanted(file, offset + limit, more)
  {
    var lines := Lines(file);
    var a, b, c := AtMost(offset, |lines|), AtMost(offset + limit, |lines|), AtMost(offset + limit + more, |lines|);
    assert lines[a..c] == lines[a..b] + lines[b..c];
    JoinAppend(lines[a..b], lines[b..c]);
  }

  lemma {:induction false} JoinAppend(a: seq<Text>, b: seq<Text>)
    ensures Join(a + b) == Join(a) + Join(b)
    decreases |a|
  {
    if a == [] {
      EmptyFront(a, b);
      EmptyFront(Join(a), Join(b));
    } else {
      ConsAppend(a, b);
      JoinAppend(a[1..], b);
      Assoc(a[0], Join(a[1..]), Join(b));
    }
  }
}
