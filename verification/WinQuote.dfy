/**
 Quoting arguments for a Windows command line, against the rules by which Microsoft's C
 runtime takes a command line apart again.
 */
module WinQuote {
  import opened Bytes
  import opened Seqs

  const QUOTE: Byte := 0x22
  const BACKSLASH: Byte := 0x5c

  function Backslashes(n: nat): (s: Text)
    ensures |s| == n && forall i :: 0 <= i < n ==> s[i] == BACKSLASH
  {
    seq(n, i => BACKSLASH)
  }

  // ---------------------------------------------------------------- building

  predicate NeedsQuotes(arg: Text) {
    arg == [] || exists i :: 0 <= i < |arg| && (arg[i] <= SPACE || arg[i] == QUOTE)
  }

  /** The inside of a quoted argument, after n backslashes that were not written yet. */
  function Escaped(arg: Text, n: nat): Text
    decreases |arg|
  {
    if arg == [] then Backslashes(2 * n)
    else if arg[0] == BACKSLASH then Escaped(arg[1..], n + 1)
    else if arg[0] == QUOTE then Backslashes(2 * n) + [BACKSLASH, QUOTE] + Escaped(arg[1..], 0)
    else Backslashes(n) + [arg[0]] + Escaped(arg[1..], 0)
  }

  function Quoted(arg: Text): Text {
    if NeedsQuotes(arg) then [QUOTE] + Escaped(arg, 0) + [QUOTE] else arg
  }

  /** The arguments from the i-th on, each after a space; those of the tail are verbatim. */
  function Rest(args: seq<Text>, rawTail: Option<nat>, i: nat): Text
    requires i <= |args|
    decreases |args| - i
  {
    if i == |args| then []
    else [SPACE] + Word(args, rawTail, i) + Rest(args, rawTail, i + 1)
  }

  function Word(args: seq<Text>, rawTail: Option<nat>, i: nat): Text
    requires i < |args|
  {
    if rawTail.Some? && i >= rawTail.value then args[i] else Quoted(args[i])
  }

  function CommandLine(args: seq<Text>, rawTail: Option<nat>): Text
    requires args != []
  {
    Word(args, rawTail, 0) + Rest(args, rawTail, 1)
  }

  // ---------------------------------------------------------------- taking apart

  predicate Blank(b: Byte) {
    b == SPACE || b == TAB
  }

  /** One argument and what follows it: n backslashes were just read. 2n backslashes before
      a quote mean n of them and a quote that opens or closes; 2n + 1 mean n and a quote
      that is part of the argument; two quotes inside quotes are one; backslashes elsewhere
      mean themselves. */
  function ReadArg(line: Text, n: nat, quoted: bool): (r: (Text, Text))
    ensures |r.1| <= |line|
    decreases |line|
  {
    if line == [] then (Backslashes(n), [])
    else if line[0] == BACKSLASH then ReadArg(line[1..], n + 1, quoted)
    else if line[0] == QUOTE && n % 2 == 1 then
      var r := ReadArg(line[1..], 0, quoted); (Backslashes(n / 2) + [QUOTE] + r.0, r.1)
    else if line[0] == QUOTE && quoted && |line| > 1 && line[1] == QUOTE then
      var r := ReadArg(line[2..], 0, quoted); (Backslashes(n / 2) + [QUOTE] + r.0, r.1)
    else if line[0] == QUOTE then
      var r := ReadArg(line[1..], 0, !quoted); (Backslashes(n / 2) + r.0, r.1)
    else if !quoted && Blank(line[0]) then (Backslashes(n), line)
    else
      var r := ReadArg(line[1..], 0, quoted); (Backslashes(n) + [line[0]] + r.0, r.1)
  }

  lemma {:induction false} ArgIsRead(line: Text, n: nat, quoted: bool)
    requires line != [] && (n > 0 || quoted || !Blank(line[0]))
    ensures n == 0 ==> |ReadArg(line, n, quoted).1| < |line|
  {
  }

  function ParseArgs(line: Text): seq<Text>
    decreases |line|
  {
    if line == [] then []
    else if Blank(line[0]) then ParseArgs(line[1..])
    else
      var r := ReadArg(line, 0, false);
      ArgIsRead(line, 0, false);
      [r.0] + ParseArgs(r.1)
  }

  /** The program name comes first: its quotes only switch, its backslashes mean nothing. */
  function ReadProgram(line: Text, quoted: bool): (Text, Text)
    decreases |line|
  {
    if line == [] then ([], [])
    else if line[0] == QUOTE then ReadProgram(line[1..], !quoted)
    else if !quoted && Blank(line[0]) then ([], line)
    else var r := ReadProgram(line[1..], quoted); ([line[0]] + r.0, r.1)
  }

  function ParseCommandLine(line: Text): seq<Text> {
    var r := ReadProgram(line, false);
    [r.0] + ParseArgs(r.1)
  }

  // ---------------------------------------------------------------- round trip

  /** What may follow an argument: the end of the line, or a separator. */
  predicate Ends(rest: Text) {
    rest == [] || Blank(rest[0])
  }

  lemma {:induction false} ReadBackslashes(k: nat, line: Text, n: nat, quoted: bool)
    ensures ReadArg(Backslashes(k) + line, n, quoted) == ReadArg(line, n + k, quoted)
    decreases k
  {
    var all := Backslashes(k) + line;
    if k == 0 {
      EmptyFront(Backslashes(k), line);
    } else {
      assert all[1..] == Backslashes(k - 1) + line;
      ReadBackslashes(k - 1, line, n + 1, quoted);
    }
  }

  lemma OneMore(n: nat, arg: Text)
    requires arg != [] && arg[0] == BACKSLASH
    ensures Backslashes(n) + arg == Backslashes(n + 1) + arg[1..]
  {
  }

  lemma Split(n: nat, c: Byte, arg: Text)
    requires arg != [] && arg[0] == c
    ensures Backslashes(n) + arg == Backslashes(n) + [c] + arg[1..]
  {
    assert arg == [c] + arg[1..];
    Assoc(Backslashes(n), [c], arg[1..]);
  }

  lemma ReadClosing(n: nat, rest: Text)
    requires Ends(rest)
    ensures ReadArg([QUOTE] + rest, 2 * n, true) == (Backslashes(n), rest)
  {
    var line := [QUOTE] + rest;
    assert line[1..] == rest;
    EmptyBack(Backslashes(n), []);
    assert Backslashes(0) == [];
  }

  lemma ReadEscapedQuote(n: nat, line: Text)
    ensures var r := ReadArg(line, 0, true);
            ReadArg([QUOTE] + line, 2 * n + 1, true) == (Backslashes(n) + [QUOTE] + r.0, r.1)
  {
    var all := [QUOTE] + line;
    assert all[1..] == line;
    assert (2 * n + 1) / 2 == n;
  }

  lemma ReadPlain(c: Byte, n: nat, line: Text, quoted: bool)
    requires c != QUOTE && c != BACKSLASH && (quoted || !Blank(c))
    ensures var r := ReadArg(line, 0, quoted);
            ReadArg([c] + line, n, quoted) == (Backslashes(n) + [c] + r.0, r.1)
  {
    var all := [c] + line;
    assert all[1..] == line;
  }

  lemma EscapedPlain(arg: Text, n: nat, rest: Text)
    requires arg != [] && arg[0] != QUOTE && arg[0] != BACKSLASH
    ensures Escaped(arg, n) + [QUOTE] + rest == Backslashes(n) + ([arg[0]] + (Escaped(arg[1..], 0) + [QUOTE] + rest))
  {
  }

  lemma {:induction false} EscapedReadsBack(arg: Text, n: nat, rest: Text)
    requires Ends(rest)
    ensures ReadArg(Escaped(arg, n) + [QUOTE] + rest, 0, true) == (Backslashes(n) + arg, rest)
    decreases |arg|
  {
    hide ReadArg;
    if arg == [] {
      Assoc(Backslashes(2 * n), [QUOTE], rest);
      ReadBackslashes(2 * n, [QUOTE] + rest, 0, true);
      ReadClosing(n, rest);
      EmptyBack(Backslashes(n), arg);
    } else if arg[0] == BACKSLASH {
      EscapedReadsBack(arg[1..], n + 1, rest);
      OneMore(n, arg);
    } else {
      var more := Escaped(arg[1..], 0) + [QUOTE] + rest;
      EscapedReadsBack(arg[1..], 0, rest);
      EmptyFront(Backslashes(0), arg[1..]);
      Split(n, arg[0], arg);
      if arg[0] == QUOTE {
        assert Escaped(arg, n) + [QUOTE] + rest == Backslashes(2 * n + 1) + ([QUOTE] + more);
        ReadBackslashes(2 * n + 1, [QUOTE] + more, 0, true);
        ReadEscapedQuote(n, more);
      } else {
        EscapedPlain(arg, n, rest);
        ReadBackslashes(n, [arg[0]] + more, 0, true);
        ReadPlain(arg[0], n, more, true);
      }
    }
  }

  lemma ReadEnd(n: nat, rest: Text)
    requires Ends(rest)
    ensures ReadArg(rest, n, false) == (Backslashes(n), rest)
  {
  }

  lemma {:induction false} PlainReadsBack(arg: Text, n: nat, rest: Text)
    requires Ends(rest) && forall i :: 0 <= i < |arg| ==> arg[i] > SPACE && arg[i] != QUOTE
    ensures ReadArg(arg + rest, n, false) == (Backslashes(n) + arg, rest)
    decreases |arg|
  {
    hide ReadArg;
    if arg == [] {
      EmptyFront(arg, rest);
      EmptyBack(Backslashes(n), arg);
      ReadEnd(n, rest);
    } else {
      ConsAppend(arg, rest);
      if arg[0] == BACKSLASH {
        PlainReadsBack(arg[1..], n + 1, rest);
        ReadBackslashes(1, arg[1..] + rest, n, false);
        assert Backslashes(1) == [arg[0]];
        OneMore(n, arg);
      } else {
        PlainReadsBack(arg[1..], 0, rest);
        EmptyFront(Backslashes(0), arg[1..]);
        ReadPlain(arg[0], n, arg[1..] + rest, false);
        Split(n, arg[0], arg);
      }
    }
  }

  lemma Opened(inner: Text, rest: Text)
    ensures [QUOTE] + inner + [QUOTE] + rest == [QUOTE] + (inner + [QUOTE] + rest)
  {
  }

  lemma ReadOpening(line: Text)
    ensures var r := ReadArg(line, 0, true); ReadArg([QUOTE] + line, 0, false) == (Backslashes(0) + r.0, r.1)
  {
    var all := [QUOTE] + line;
    assert all[1..] == line;
  }

  lemma EnclosedReadsBack(arg: Text, rest: Text)
    requires Ends(rest)
    ensures ReadArg([QUOTE] + Escaped(arg, 0) + [QUOTE] + rest, 0, false) == (arg, rest)
  {
    hide ReadArg, Escaped;
    EscapedReadsBack(arg, 0, rest);
    Opened(Escaped(arg, 0), rest);
    ReadOpening(Escaped(arg, 0) + [QUOTE] + rest);
    EmptyFront(Backslashes(0), arg);
  }

  lemma NotBlank(arg: Text, rest: Text)
    ensures var line := Quoted(arg) + rest; line != [] && !Blank(line[0])
  {
    hide Escaped;
    if NeedsQuotes(arg) {
      Opened(Escaped(arg, 0), rest);
    } else {
      ConsAppend(arg, rest);
    }
  }

  /** However it was written, a quoted argument is read back as it was. */
  lemma QuotedReadsBack(arg: Text, rest: Text)
    requires Ends(rest)
    ensures ReadArg(Quoted(arg) + rest, 0, false) == (arg, rest)
    ensures var line := Quoted(arg) + rest; line != [] && !Blank(line[0])
  {
    hide ReadArg, Escaped;
    NotBlank(arg, rest);
    if NeedsQuotes(arg) {
      EnclosedReadsBack(arg, rest);
    } else {
      PlainReadsBack(arg, 0, rest);
      EmptyFront(Backslashes(0), arg);
    }
  }

  lemma ParseOne(arg: Text, rest: Text)
    requires Ends(rest)
    ensures ParseArgs([SPACE] + Quoted(arg) + rest) == [arg] + ParseArgs(rest)
  {
    hide Quoted, ReadArg;
    var line := [SPACE] + Quoted(arg) + rest;
    QuotedReadsBack(arg, rest);
    assert line[1..] == Quoted(arg) + rest;
  }

  lemma RestEnds(args: seq<Text>, rawTail: Option<nat>, i: nat)
    requires i <= |args|
    ensures Ends(Rest(args, rawTail, i))
  {
  }

  lemma ConsSlice(args: seq<Text>, i: nat, stop: nat)
    requires i < stop <= |args|
    ensures [args[i]] + args[i + 1..stop] == args[i..stop]
  {
  }

  /** Parsing what follows the program gives back exactly the quoted arguments, and then
      whatever the verbatim tail parses to. */
  lemma {:induction false} RestReadsBack(args: seq<Text>, rawTail: Option<nat>, i: nat, stop: nat)
    requires i <= stop <= |args|
    requires stop == if rawTail.Some? && rawTail.value < |args| then rawTail.value else |args|
    ensures ParseArgs(Rest(args, rawTail, i)) == args[i..stop] + ParseArgs(Rest(args, rawTail, stop))
    decreases |args| - i
  {
    hide ParseArgs, Quoted;
    if i == stop {
      EmptyFront(args[i..stop], ParseArgs(Rest(args, rawTail, stop)));
    } else {
      RestReadsBack(args, rawTail, i + 1, stop);
      RestEnds(args, rawTail, i + 1);
      ParseOne(args[i], Rest(args, rawTail, i + 1));
      ConsSlice(args, i, stop);
      Assoc([args[i]], args[i + 1..stop], ParseArgs(Rest(args, rawTail, stop)));
    }
  }

  /** With a verbatim tail, the arguments before it come back and the tail parses on its own. */
  lemma TailParsesAlone(args: seq<Text>, tail: nat)
    requires 0 < tail <= |args|
    ensures var line := CommandLine(args, Some(tail));
            && |Quoted(args[0])| <= |line|
            && ParseArgs(line[|Quoted(args[0])|..]) == args[1..tail] + ParseArgs(Rest(args, Some(tail), tail))
  {
    hide ParseArgs, Quoted, Rest;
    var line := CommandLine(args, Some(tail));
    assert line[|Quoted(args[0])|..] == Rest(args, Some(tail), 1);
    RestReadsBack(args, Some(tail), 1, tail);
  }

  /** The whole argument list after argv[0], when nothing is verbatim. */
  lemma ArgumentsReadBack(args: seq<Text>)
    requires args != []
    ensures var line := CommandLine(args, None);
            |Quoted(args[0])| <= |line| && ParseArgs(line[|Quoted(args[0])|..]) == args[1..]
  {
    hide ParseArgs, Quoted, Rest;
    var line := CommandLine(args, None);
    assert line[|Quoted(args[0])|..] == Rest(args, None, 1);
    RestReadsBack(args, None, 1, |args|);
    NothingParsed(args);
    EmptyBack(args[1..], []);
    assert args[1..|args|] == args[1..];
  }

  lemma NothingParsed(args: seq<Text>)
    ensures ParseArgs(Rest(args, None, |args|)) == []
  {
  }

  // ---------------------------------------------------------------- the program name

  lemma {:induction false} ProgramBackslashes(k: nat, line: Text, quoted: bool)
    ensures var r := ReadProgram(line, quoted);
            ReadProgram(Backslashes(k) + line, quoted) == (Backslashes(k) + r.0, r.1)
    decreases k
  {
    var all := Backslashes(k) + line;
    var r := ReadProgram(line, quoted);
    if k == 0 {
      EmptyFront(Backslashes(k), line);
      EmptyFront(Backslashes(k), r.0);
    } else {
      assert all[1..] == Backslashes(k - 1) + line;
      ProgramBackslashes(k - 1, line, quoted);
      assert [BACKSLASH] + (Backslashes(k - 1) + r.0) == Backslashes(k) + r.0;
    }
  }

  /** The number of backslashes at the end of n backslashes and an argument. */
  function TrailingBackslashes(arg: Text, n: nat): nat
    decreases |arg|
  {
    if arg == [] then n
    else TrailingBackslashes(arg[1..], if arg[0] == BACKSLASH then n + 1 else 0)
  }

  lemma {:induction false} TrailingAreLast(arg: Text, n: nat)
    ensures arg != [] ==> (TrailingBackslashes(arg, n) > 0 <==> arg[|arg| - 1] == BACKSLASH)
    decreases |arg|
  {
    if |arg| > 1 {
      TrailingAreLast(arg[1..], if arg[0] == BACKSLASH then n + 1 else 0);
    }
  }

  lemma Regroup(a: Text, b: Text, c: Text, d: Text)
    ensures a + (b + (c + d)) == a + b + c + d && a + b + (c + d) == a + b + c + d
  {
  }

  lemma {:induction false} EscapedProgram(arg: Text, n: nat, rest: Text)
    requires QUOTE !in arg && Ends(rest)
    ensures ReadProgram(Escaped(arg, n) + [QUOTE] + rest, true) ==
            (Backslashes(n) + arg + Backslashes(TrailingBackslashes(arg, n)), rest)
    decreases |arg|
  {
    hide ReadProgram;
    if arg == [] {
      Assoc(Backslashes(2 * n), [QUOTE], rest);
      ProgramBackslashes(2 * n, [QUOTE] + rest, true);
      ProgramCloses(rest);
      assert Backslashes(2 * n) + [] == Backslashes(n) + arg + Backslashes(n);
    } else if arg[0] == BACKSLASH {
      EscapedProgram(arg[1..], n + 1, rest);
      OneMore(n, arg);
    } else {
      var more := Escaped(arg[1..], 0) + [QUOTE] + rest;
      EscapedProgram(arg[1..], 0, rest);
      EmptyFront(Backslashes(0), arg[1..]);
      EscapedPlain(arg, n, rest);
      ProgramBackslashes(n, [arg[0]] + more, true);
      ProgramPlain(arg[0], more);
      Split(n, arg[0], arg);
      Regroup(Backslashes(n), [arg[0]], arg[1..], Backslashes(TrailingBackslashes(arg, n)));
    }
  }

  lemma ProgramCloses(rest: Text)
    requires Ends(rest)
    ensures ReadProgram([QUOTE] + rest, true) == ([], rest)
  {
    var line := [QUOTE] + rest;
    assert line[1..] == rest;
  }

  lemma ProgramPlain(c: Byte, line: Text)
    requires c != QUOTE
    ensures var r := ReadProgram(line, true); ReadProgram([c] + line, true) == ([c] + r.0, r.1)
  {
    var all := [c] + line;
    assert all[1..] == line;
  }

  lemma {:induction false} PlainProgram(arg: Text, rest: Text)
    requires Ends(rest) && forall i :: 0 <= i < |arg| ==> arg[i] > SPACE && arg[i] != QUOTE
    ensures ReadProgram(arg + rest, false) == (arg, rest)
    decreases |arg|
  {
    if arg == [] {
      EmptyFront(arg, rest);
    } else {
      ConsAppend(arg, rest);
      PlainProgram(arg[1..], rest);
      assert [arg[0]] + arg[1..] == arg;
    }
  }

  lemma ProgramOpening(line: Text)
    ensures ReadProgram([QUOTE] + line, false) == ReadProgram(line, true)
  {
    var all := [QUOTE] + line;
    assert all[1..] == line;
  }

  lemma EnclosedProgram(arg: Text, rest: Text)
    requires QUOTE !in arg && Ends(rest)
    ensures ReadProgram([QUOTE] + Escaped(arg, 0) + [QUOTE] + rest, false) ==
            (arg + Backslashes(TrailingBackslashes(arg, 0)), rest)
  {
    hide ReadProgram, Escaped;
    EscapedProgram(arg, 0, rest);
    Opened(Escaped(arg, 0), rest);
    ProgramOpening(Escaped(arg, 0) + [QUOTE] + rest);
    EmptyFront(Backslashes(0), arg);
  }

  lemma ProgramReadsBack(arg: Text, rest: Text)
    requires QUOTE !in arg && Ends(rest)
    ensures var extra := if NeedsQuotes(arg) then TrailingBackslashes(arg, 0) else 0;
            ReadProgram(Quoted(arg) + rest, false) == (arg + Backslashes(extra), rest)
  {
    hide ReadProgram, Escaped;
    if NeedsQuotes(arg) {
      EnclosedProgram(arg, rest);
    } else {
      PlainProgram(arg, rest);
      EmptyBack(arg, Backslashes(0));
    }
  }

  lemma {:induction false} ProgramHasNoQuote(line: Text, quoted: bool)
    ensures QUOTE !in ReadProgram(line, quoted).0
    decreases |line|
  {
    if line != [] && !(line[0] != QUOTE && !quoted && Blank(line[0])) {
      ProgramHasNoQuote(line[1..], if line[0] == QUOTE then !quoted else quoted);
    }
  }

  lemma WithoutQuoteReadsBack(args: seq<Text>)
    requires args != [] && QUOTE !in args[0]
    ensures var parsed := ParseCommandLine(CommandLine(args, None));
            && parsed[1..] == args[1..]
            && (parsed == args <==> !(NeedsQuotes(args[0]) && args[0] != [] && args[0][|args[0]| - 1] == BACKSLASH))
  {
    hide ParseArgs, Quoted, Rest, NeedsQuotes, ReadProgram;
    var line := CommandLine(args, None);
    RestEnds(args, None, 1);
    ProgramReadsBack(args[0], Rest(args, None, 1));
    var extra := if NeedsQuotes(args[0]) then TrailingBackslashes(args[0], 0) else 0;
    TrailingAreLast(args[0], 0);
    ArgumentsReadBack(args);
    assert line[|Quoted(args[0])|..] == Rest(args, None, 1);
    var parsed := ParseCommandLine(line);
    assert parsed == [args[0] + Backslashes(extra)] + args[1..];
    assert args == [args[0]] + args[1..];
    assert parsed == args <==> args[0] + Backslashes(extra) == args[0];
    assert args[0] + Backslashes(extra) == args[0] <==> extra == 0;
  }

  /** The whole line reads back if and only if the program name holds no quote and is not
      one that needs quotes and ends with a backslash: its backslashes are doubled, but
      there the runtime does not halve them, and a quote never gets into a name. */
  lemma CommandLineReadsBack(args: seq<Text>)
    requires args != []
    ensures var parsed := ParseCommandLine(CommandLine(args, None));
            && (QUOTE !in args[0] ==> parsed[1..] == args[1..])
            && (parsed == args <==>
                  && QUOTE !in args[0]
                  && !(NeedsQuotes(args[0]) && args[0] != [] && args[0][|args[0]| - 1] == BACKSLASH))
  {
    hide ParseArgs, NeedsQuotes, ReadProgram, CommandLine;
    if QUOTE in args[0] {
      ProgramHasNoQuote(CommandLine(args, None), false);
    } else {
      WithoutQuoteReadsBack(args);
    }
  }

  /** The name that is a space and a backslash. */
  lemma BackslashedNameDiffers()
    ensures var args := [[SPACE, BACKSLASH]]; ParseCommandLine(CommandLine(args, None)) != args
  {
    var args := [[SPACE, BACKSLASH]];
    assert args[0][0] <= SPACE;
    CommandLineReadsBack(args);
  }
}
