/**
 The quoted form of an argument and the command line, by their words.
 */
module WinWords {
  import opened Bytes
  import opened Seqs
  import opened WinQuote

  lemma {:induction false} EscapedAfter(k: nat, rest: Text, n: nat)
    ensures Escaped(Backslashes(k) + rest, n) == Escaped(rest, n + k)
    decreases k
  {
    var all := Backslashes(k) + rest;
    if k == 0 {
      EmptyFront(Backslashes(k), rest);
    } else {
      assert all[1..] == Backslashes(k - 1) + rest;
      EscapedAfter(k - 1, rest, n + 1);
    }
  }

  /** Escaping, by the first byte that is no backslash: a quote gets a backslash before it and
      the backslashes before that are doubled; so are those at the end; all others stay. */
  lemma EscapedForms(n: nat, c: Byte, rest: Text)
    ensures Escaped(Backslashes(n), 0) == Backslashes(2 * n)
    ensures Escaped(Backslashes(n) + ([0x22] + rest), 0) == Backslashes(2 * n + 1) + [0x22] + Escaped(rest, 0)
    ensures c != 0x22 && c != 0x5c ==>
              Escaped(Backslashes(n) + ([c] + rest), 0) == Backslashes(n) + [c] + Escaped(rest, 0)
  {
    EmptyBack(Backslashes(n), []);
    EscapedAfter(n, [], 0);
    EscapedAfter(n, [0x22] + rest, 0);
    EscapedAfter(n, [c] + rest, 0);
    assert ([0x22] + rest)[1..] == rest && ([c] + rest)[1..] == rest;
    assert Backslashes(2 * n) + [BACKSLASH, QUOTE] == Backslashes(2 * n + 1) + [QUOTE];
  }

  /** Quotes go around exactly the arguments that are empty or hold a blank, a control or a
      quote; all others stay as they are. */
  lemma QuotedForm(arg: Text)
    ensures Quoted(arg) ==
            if arg == [] || exists i :: 0 <= i < |arg| && (arg[i] <= 0x20 || arg[i] == 0x22)
            then [0x22] + Escaped(arg, 0) + [0x22] else arg
  {
  }

  function Spaced(words: seq<Text>): Text {
    if words == [] then [] else [0x20] + words[0] + Spaced(words[1..])
  }

  /** The words of a command line: arguments quoted, and verbatim from the raw tail on. */
  ghost predicate WordsOf(line: Text, args: seq<Text>, rawTail: Option<nat>, words: seq<Text>) {
    && |words| == |args| > 0
    && line == words[0] + Spaced(words[1..])
    && forall i :: 0 <= i < |args| ==>
                     words[i] == if rawTail.Some? && i >= rawTail.value then args[i] else Quoted(args[i])
  }

  lemma {:induction false} RestWords(args: seq<Text>, rawTail: Option<nat>, words: seq<Text>, i: nat)
    requires i <= |args| == |words|
    requires forall j :: 0 <= j < |args| ==> words[j] == Word(args, rawTail, j)
    ensures Rest(args, rawTail, i) == Spaced(words[i..])
    decreases |args| - i
  {
    if i < |args| {
      RestWords(args, rawTail, words, i + 1);
      DropDrop(words, i, 1);
    }
  }

  ghost predicate HasWords(line: Text, args: seq<Text>, rawTail: Option<nat>) {
    exists words :: WordsOf(line, args, rawTail, words)
  }

  /** Every command line is made up of such words, with one space between two. */
  lemma LineHasWords(args: seq<Text>, rawTail: Option<nat>)
    requires args != []
    ensures HasWords(CommandLine(args, rawTail), args, rawTail)
  {
    hide Quoted;
    var words := seq(|args|, i requires 0 <= i < |args| => Word(args, rawTail, i));
    RestWords(args, rawTail, words, 1);
    assert WordsOf(CommandLine(args, rawTail), args, rawTail, words);
  }
}
