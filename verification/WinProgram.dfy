/**
 Program names with quotes: they never read back, but when their quotes leave the runtime
 where it would be without them, the arguments after them do.
 */
module WinProgram {
  import opened Bytes
  import opened Seqs
  import opened WinQuote

  /** Whether the runtime, reading a name in which every quote switches, is inside quotes
      at its end; none if it meets a blank outside quotes before. */
  function Switched(name: Text, quoted: bool): Option<bool>
    decreases |name|
  {
    if name == [] then Some(quoted)
    else if name[0] == QUOTE then Switched(name[1..], !quoted)
    else if !quoted && Blank(name[0]) then None
    else Switched(name[1..], quoted)
  }

  /** The quotes of a name come in pairs, and no blank lies within a pair: the name is
      written in quotes, so that its first quote closes them and its second opens them. */
  predicate Steady(name: Text) {
    Switched(name, true) == Some(true)
  }

  lemma {:induction false} QuotelessIsSteady(name: Text)
    requires QUOTE !in name
    ensures Steady(name)
    decreases |name|
  {
    if name != [] {
      assert name[0] in name;
      assert forall b :: b in name[1..] ==> b in name;
      QuotelessIsSteady(name[1..]);
    }
  }

  lemma {:induction false} RemainderBounded(line: Text, quoted: bool)
    ensures |ReadProgram(line, quoted).1| <= |line|
    decreases |line|
  {
    if line != [] && !(line[0] != QUOTE && !quoted && Blank(line[0])) {
      RemainderBounded(line[1..], if line[0] == QUOTE then !quoted else quoted);
    }
  }

  lemma ReadOne(c: Byte, line: Text, quoted: bool)
    ensures ReadProgram([c] + line, quoted).1 ==
            if c == QUOTE then ReadProgram(line, !quoted).1
            else if !quoted && Blank(c) then [c] + line
            else ReadProgram(line, quoted).1
  {
    var all := [c] + line;
    assert all[1..] == line;
  }

  /** What is left of the line after the inside of a quoted name and what follows it. */
  lemma {:induction false} EscapedSwitches(name: Text, n: nat, tail: Text, quoted: bool)
    ensures var left := ReadProgram(Escaped(name, n) + tail, quoted).1;
            match Switched(name, quoted)
            case None => |left| > |tail|
            case Some(q) => left == ReadProgram(tail, q).1
    decreases |name|
  {
    hide ReadProgram;
    if name == [] {
      ProgramBackslashes(2 * n, tail, quoted);
    } else if name[0] == BACKSLASH {
      EscapedSwitches(name[1..], n + 1, tail, quoted);
    } else {
      var more := Escaped(name[1..], 0) + tail;
      if name[0] == QUOTE {
        EscapedSwitches(name[1..], 0, tail, !quoted);
        QuoteWritten(name, n, tail);
        ProgramBackslashes(2 * n + 1, [QUOTE] + more, quoted);
      } else {
        EscapedSwitches(name[1..], 0, tail, quoted);
        PlainWritten(name, n, tail);
        ProgramBackslashes(n, [name[0]] + more, quoted);
      }
      ReadOne(name[0], more, quoted);
    }
  }

  lemma QuoteWritten(name: Text, n: nat, tail: Text)
    requires name != [] && name[0] == QUOTE
    ensures Escaped(name, n) + tail == Backslashes(2 * n + 1) + ([QUOTE] + (Escaped(name[1..], 0) + tail))
  {
  }

  lemma PlainWritten(name: Text, n: nat, tail: Text)
    requires name != [] && name[0] != QUOTE && name[0] != BACKSLASH
    ensures Escaped(name, n) + tail == Backslashes(n) + ([name[0]] + (Escaped(name[1..], 0) + tail))
  {
  }

  lemma EnclosedStops(name: Text, rest: Text)
    requires Ends(rest) && Steady(name)
    ensures ReadProgram([QUOTE] + Escaped(name, 0) + [QUOTE] + rest, false).1 == rest
  {
    hide ReadProgram, Escaped;
    EnclosedLeft(name, rest);
    ReadOne(QUOTE, rest, true);
    StopsAtOnce(rest);
  }

  lemma StopsAtOnce(rest: Text)
    requires Ends(rest)
    ensures ReadProgram(rest, false).1 == rest
  {
  }

  lemma EnclosedLeft(name: Text, rest: Text)
    ensures var left := ReadProgram([QUOTE] + Escaped(name, 0) + [QUOTE] + rest, false).1;
            match Switched(name, true)
            case None => |left| > |rest|
            case Some(q) => left == ReadProgram([QUOTE] + rest, q).1
  {
    hide ReadProgram, Escaped;
    Opened(Escaped(name, 0), rest);
    Assoc(Escaped(name, 0), [QUOTE], rest);
    ReadOne(QUOTE, Escaped(name, 0) + ([QUOTE] + rest), false);
    EscapedSwitches(name, 0, [QUOTE] + rest, true);
  }

  /** The runtime takes just what was written for a name, whatever follows. */
  ghost predicate StopsAfter(name: Text) {
    forall rest: Text :: Ends(rest) ==> ReadProgram(Quoted(name) + rest, false).1 == rest
  }

  lemma SwallowsBlank(name: Text)
    requires NeedsQuotes(name) && !Steady(name)
    ensures ReadProgram(Quoted(name) + [SPACE], false).1 != [SPACE]
  {
    hide ReadProgram, Escaped;
    EnclosedLeft(name, [SPACE]);
    var q := Switched(name, true);
    if q == Some(false) {
      ReadOne(QUOTE, [SPACE], false);
      EmptyBack([SPACE], []);
      ReadOne(SPACE, [], true);
      NothingLeft();
    }
  }

  lemma NothingLeft()
    ensures ReadProgram([], true).1 == []
  {
  }

  lemma PlainHasNoQuote(name: Text)
    requires !NeedsQuotes(name)
    ensures QUOTE !in name
  {
  }

  /** The exact condition for that. */
  lemma StopsAfterIff(name: Text)
    ensures StopsAfter(name) <==> Steady(name)
  {
    hide ReadProgram, Steady, Escaped, NeedsQuotes;
    if Steady(name) {
      forall rest: Text | Ends(rest)
        ensures ReadProgram(Quoted(name) + rest, false).1 == rest
      {
        if NeedsQuotes(name) {
          EnclosedStops(name, rest);
        } else {
          PlainHasNoQuote(name);
          ProgramReadsBack(name, rest);
        }
      }
    } else {
      if !NeedsQuotes(name) {
        PlainHasNoQuote(name);
        QuotelessIsSteady(name);
      } else {
        SwallowsBlank(name);
        assert Ends([SPACE]);
      }
    }
  }

  /** The arguments come back after every steady program name, with quotes or without. */
  lemma ArgumentsAfterName(args: seq<Text>)
    requires args != [] && Steady(args[0])
    ensures ParseCommandLine(CommandLine(args, None))[1..] == args[1..]
  {
    hide ReadProgram, ParseArgs, Quoted, Rest, Steady;
    var line := CommandLine(args, None);
    StopsAfterIff(args[0]);
    RestEnds(args, None, 1);
    ArgumentsReadBack(args);
    assert line[|Quoted(args[0])|..] == Rest(args, None, 1);
    assert ReadProgram(line, false).1 == Rest(args, None, 1);
  }

  /** A quoted word in a name does not keep the arguments from coming back. */
  lemma SteadyNames()
    ensures Steady([QUOTE, 'a' as int, QUOTE]) && !Steady([QUOTE]) && !Steady([QUOTE, SPACE, QUOTE])
  {
    var a, b, c: Text := [QUOTE, 'a' as int, QUOTE], [QUOTE], [QUOTE, SPACE, QUOTE];
    assert a[1..] == ['a' as int, QUOTE] && a[1..][1..] == [QUOTE] && [QUOTE][1..] == [];
    assert Switched([QUOTE], false) == Some(true);
    assert b[1..] == [];
    assert Switched(b, true) == Switched([], false) == Some(false);
    assert c[1..] == [SPACE, QUOTE];
    assert Switched(c[1..], false) == None;
  }
}
