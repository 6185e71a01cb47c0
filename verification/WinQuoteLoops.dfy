/**
 The loops that quote arguments into a growing buffer.
 */
module WinQuoteLoops {
  import opened Bytes
  import opened Seqs
  import opened StrBufs
  import opened WinQuote
  import opened WinWords

  method ArgNeedsQuotes(arg: Text) returns (r: bool)
    ensures r <==> NeedsQuotes(arg)
    ensures r <==> arg == [] || exists i :: 0 <= i < |arg| && (arg[i] <= 0x20 || arg[i] == 0x22)
  {
    if |arg| == 0 {
      return true;
    }
    for p := 0 to |arg|
      invariant forall i :: 0 <= i < p ==> arg[i] > SPACE && arg[i] != QUOTE
    {
      if arg[p] <= SPACE || arg[p] == QUOTE {
        return true;
      }
    }
    return false;
  }

  /** Writes a piece once for every pending backslash. */
  method AppendTimes(b: StrBuf, n: nat, each: nat)
    requires b.Valid()
    modifies b, b.data
    ensures b.Valid() && (b.data == old(b.data) || fresh(b.data))
    ensures b.Contents() == old(b.Contents()) + Backslashes(each * n)
  {
    var left, piece := n, Backslashes(each);
    EmptyBack(b.Contents(), Backslashes(each * 0));
    while left > 0
      invariant 0 <= left <= n && b.Valid() && (b.data == old(b.data) || fresh(b.data))
      invariant b.Contents() == old(b.Contents()) + Backslashes(each * (n - left))
    {
      MoreBackslashes(old(b.Contents()), each, n - left);
      b.Append(piece);
      left := left - 1;
    }
  }

  lemma MoreBackslashes(s: Text, each: nat, k: nat)
    ensures each * (k + 1) >= 0
    ensures s + Backslashes(each * k) + Backslashes(each) == s + Backslashes(each * (k + 1))
  {
    assert each * (k + 1) == each * k + each;
  }

  lemma EscapedAt(arg: Text, p: nat, n: nat)
    requires p < |arg|
    ensures arg[p] == BACKSLASH ==> Escaped(arg[p..], n) == Escaped(arg[p + 1..], n + 1)
    ensures arg[p] == QUOTE ==>
              Escaped(arg[p..], n) == Backslashes(2 * n) + [BACKSLASH, QUOTE] + Escaped(arg[p + 1..], 0)
    ensures arg[p] != BACKSLASH && arg[p] != QUOTE ==>
              Escaped(arg[p..], n) == Backslashes(n) + [arg[p]] + Escaped(arg[p + 1..], 0)
  {
    DropDrop(arg, p, 1);
  }

  lemma Regrouped(s: Text, a: Text, b: Text, c: Text)
    ensures s + (a + b + c) == s + a + b + c
  {
  }

  /** Appends the inside of a quoted argument. */
  method AppendEscaped(b: StrBuf, arg: Text)
    requires b.Valid()
    modifies b, b.data
    ensures b.Valid() && (b.data == old(b.data) || fresh(b.data))
    ensures b.Contents() == old(b.Contents()) + Escaped(arg, 0)
  {
    hide Escaped;
    var backslashes, p := 0, 0;
    ghost var before := b.Contents();
    assert arg[0..] == arg;
    while p < |arg|
      invariant 0 <= p <= |arg| && backslashes >= 0
      invariant b.Valid() && (b.data == old(b.data) || fresh(b.data))
      invariant b.Contents() + Escaped(arg[p..], backslashes) == before + Escaped(arg, 0)
      decreases |arg| - p
    {
      EscapedAt(arg, p, backslashes);
      ghost var now, more := b.Contents(), Escaped(arg[p + 1..], 0);
      if arg[p] == BACKSLASH {
        backslashes := backslashes + 1;
      } else if arg[p] == QUOTE {
        AppendTimes(b, backslashes, 2);
        b.Append([BACKSLASH, QUOTE]);
        Regrouped(now, Backslashes(2 * backslashes), [BACKSLASH, QUOTE], more);
        backslashes := 0;
      } else {
        AppendTimes(b, backslashes, 1);
        b.Append([arg[p]]);
        Regrouped(now, Backslashes(backslashes), [arg[p]], more);
        backslashes := 0;
      }
      p := p + 1;
    }
    assert arg[p..] == [];
    NothingEscaped(backslashes);
    AppendTimes(b, backslashes, 2);
  }

  lemma NothingEscaped(n: nat)
    ensures Escaped([], n) == Backslashes(2 * n)
  {
  }

  method AppendQuotedArg(b: StrBuf, arg: Text)
    requires b.Valid()
    modifies b, b.data
    ensures b.Valid() && b.data != null && (b.data == old(b.data) || fresh(b.data))
    ensures b.Contents() == old(b.Contents()) + Quoted(arg)
  {
    hide NeedsQuotes, Escaped;
    var quotes := ArgNeedsQuotes(arg);
    if !quotes {
      b.Append(arg);
      return;
    }
    ghost var before := b.Contents();
    b.Append([QUOTE]);
    AppendEscaped(b, arg);
    b.Append([QUOTE]);
    Regrouped(before, [QUOTE], Escaped(arg, 0), [QUOTE]);
  }

  /** The arguments with the program name replaced, if it is. */
  function Overridden(argv: seq<Text>, argv0: Option<Text>): (args: seq<Text>)
    requires argv != []
    ensures |args| == |argv| && args[1..] == argv[1..]
  {
    if argv0.Some? then [argv0.value] + argv[1..] else argv
  }

  function Tail(rawTailIndex: int): Option<nat> {
    if rawTailIndex >= 0 then Some(rawTailIndex) else None
  }

  function LineFrom(args: seq<Text>, rawTail: Option<nat>, i: nat): Text
    requires i <= |args| && args != []
  {
    if i == 0 then CommandLine(args, rawTail) else Rest(args, rawTail, i)
  }

  lemma LineAt(args: seq<Text>, rawTail: Option<nat>, i: nat)
    requires i < |args|
    ensures LineFrom(args, rawTail, i) ==
            (if i > 0 then [SPACE] else []) + Word(args, rawTail, i) + LineFrom(args, rawTail, i + 1)
  {
    hide Word;
    EmptyFront([], Word(args, rawTail, i));
  }

  lemma OverriddenAt(argv: seq<Text>, argv0: Option<Text>, i: nat)
    requires i < |argv|
    ensures Overridden(argv, argv0)[i] == if i == 0 && argv0.Some? then argv0.value else argv[i]
  {
  }

  lemma WordIs(args: seq<Text>, rawTailIndex: int, i: nat)
    requires i < |args|
    ensures Word(args, Tail(rawTailIndex), i) ==
            if rawTailIndex >= 0 && i >= rawTailIndex then args[i] else Quoted(args[i])
  {
    hide Quoted;
  }

  /** Appends an argument, verbatim or quoted, after a space if it is not the first. */
  method AppendWord(b: StrBuf, first: bool, arg: Text, verbatim: bool)
    requires b.Valid()
    modifies b, b.data
    ensures b.Valid() && b.data != null && (b.data == old(b.data) || fresh(b.data))
    ensures b.Contents() == old(b.Contents())
                            + ((if first then [] else [SPACE]) + (if verbatim then arg else Quoted(arg)))
  {
    hide Quoted;
    ghost var before, word := b.Contents(), if verbatim then arg else Quoted(arg);
    EmptyFront([], word);
    Assoc(before, [SPACE], word);
    if !first {
      b.Append([SPACE]);
    }
    if verbatim {
      b.Append(arg);
    } else {
      AppendQuotedArg(b, arg);
    }
  }

  /** Builds the command line of an argument vector; a missing program is an error. */
  method BuildCommandLine(argv: seq<Text>, rawTailIndex: int, argv0: Option<Text>) returns (line: Option<Text>)
    ensures line == if argv == [] then None else Some(CommandLine(Overridden(argv, argv0), Tail(rawTailIndex)))
    ensures argv != [] ==>
              HasWords(line.value, if argv0.Some? then [argv0.value] + argv[1..] else argv,
                       if rawTailIndex >= 0 then Some(rawTailIndex) else None)
  {
    hide HasWords, CommandLine, LineFrom, Quoted, Word, Overridden;
    if |argv| == 0 {
      return None;
    }
    ghost var args, tail := Overridden(argv, argv0), Tail(rawTailIndex);
    var b := new StrBuf();
    var i := 0;
    Ends0(args, tail);
    while i < |argv|
      invariant 0 <= i <= |argv| && b.Valid() && fresh(b) && (b.data == null || fresh(b.data))
      invariant b.Contents() + LineFrom(args, tail, i) == CommandLine(args, tail)
    {
      var arg := if i == 0 && argv0.Some? then argv0.value else argv[i];
      OverriddenAt(argv, argv0, i);
      WordIs(args, rawTailIndex, i);
      LineAt(args, tail, i);
      ghost var word := (if i > 0 then [SPACE] else []) + Word(args, tail, i);
      Assoc(b.Contents(), word, LineFrom(args, tail, i + 1));
      AppendWord(b, i == 0, arg, rawTailIndex >= 0 && i >= rawTailIndex);
      i := i + 1;
    }
    EndsLast(args, tail);
    EmptyBack(b.Contents(), []);
    BuiltHasWords(argv, argv0, rawTailIndex);
    line := Some(if b.data == null then [] else b.data[..b.length]);
  }

  lemma BuiltHasWords(argv: seq<Text>, argv0: Option<Text>, rawTailIndex: int)
    requires argv != []
    ensures HasWords(CommandLine(Overridden(argv, argv0), Tail(rawTailIndex)),
                     if argv0.Some? then [argv0.value] + argv[1..] else argv,
                     if rawTailIndex >= 0 then Some(rawTailIndex) else None)
  {
    hide HasWords, CommandLine;
    LineHasWords(Overridden(argv, argv0), Tail(rawTailIndex));
  }

  lemma Ends0(args: seq<Text>, rawTail: Option<nat>)
    requires args != []
    ensures [] + LineFrom(args, rawTail, 0) == CommandLine(args, rawTail)
  {
    EmptyFront([], CommandLine(args, rawTail));
  }

  lemma EndsLast(args: seq<Text>, rawTail: Option<nat>)
    requires args != []
    ensures LineFrom(args, rawTail, |args|) == []
  {
  }
}
