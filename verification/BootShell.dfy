/** The boot shell's loop: lines are edited, remembered and split into arguments, one after another, in the
    same buffer. */
module BootShell {
  import opened LineEditor
  import Tokenizer

  function FirstEnter(keys: seq<Key>): (n: nat)
    ensures ReadTo(keys, n)
  {
    if keys == [] || IsEnter(keys[0]) then 0 else 1 + FirstEnter(keys[1..])
  }

  /** The lines that a stream of keys submits, each typed against the history that those before it leave. */
  ghost function Commands(history: seq<string>, keys: seq<Key>): (ls: seq<string>)
    requires Lines(history)
    ensures forall i :: 0 <= i < |ls| ==> Line(ls[i])
    decreases |keys|
  {
    var n := FirstEnter(keys);
    if n == |keys| then []
    else
      var e := PressAll(Fresh(history, MAX_LINE_LENGTH), keys[..n]);
      SoundText(e);
      SubmitKeepsLines(history, e.Text());
      [e.Text()] + Commands(Submit(history, e.Text()), keys[n + 1..])
  }

  /** `n` keys are read before the first ENTER, if there is one. */
  predicate ReadTo(keys: seq<Key>, n: nat) {
    n <= |keys| && (forall i :: 0 <= i < n ==> !IsEnter(keys[i])) && (n < |keys| ==> IsEnter(keys[n]))
  }

  lemma CommandsNext(history: seq<string>, keys: seq<Key>, n: nat) returns (line: string)
    requires Lines(history) && Fits(history, MAX_LINE_LENGTH) && ReadTo(keys, n)
    ensures Sound(Fresh(history, MAX_LINE_LENGTH))
    ensures line == PressAll(Fresh(history, MAX_LINE_LENGTH), keys[..n]).Text()
    ensures Line(line) && Lines(Submit(history, line))
    ensures Commands(history, keys)
         == if n == |keys| then [] else [line] + Commands(Submit(history, line), keys[n + 1..])
  {
    assert n == FirstEnter(keys);
    var e := PressAll(Fresh(history, MAX_LINE_LENGTH), keys[..n]);
    SoundText(e);
    line := e.Text();
    SubmitKeepsLines(history, line);
  }

  /** The keystrokes of some lines, each ended by ENTER. */
  ghost function Typing(lines: seq<string>): seq<Key> {
    if lines == [] then [] else Keys(lines[0]) + ([Key(0, 13 as char)] + Typing(lines[1..]))
  }

  /** Lines that are typed are the lines that are submitted. */
  lemma {:induction false} TypedSubmitted(history: seq<string>, lines: seq<string>)
    requires Lines(history) && Fits(history, 256)
    requires forall i :: 0 <= i < |lines| ==> Ordinary(lines[i]) && |lines[i]| < 256
    ensures Commands(history, Typing(lines)) == lines
    decreases |lines|
  {
    hide Keys, PressAll, Commands, Submit, Line, ReadTo, Ordinary, Lines, Fits;
    if lines != [] {
      var line := lines[0];
      TypedFirst(line, Typing(lines[1..]));
      TypedText(history, line);
      var submitted := CommandsNext(history, Typing(lines), |line|);
      SubmitKeepsLines(history, line);
      TypedSubmitted(Submit(history, line), lines[1..]);
    } else {
      NothingTyped(history);
    }
  }

  lemma NothingTyped(history: seq<string>)
    requires Lines(history)
    ensures Commands(history, []) == []
  {
  }

  lemma TypedFirst(line: string, rest: seq<Key>)
    requires Ordinary(line)
    ensures var keys := Keys(line) + ([Key(0, 13 as char)] + rest);
            && ReadTo(keys, |line|) && |line| < |keys|
            && keys[..|line|] == Keys(line) && keys[|line| + 1..] == rest
  {
    var keys := Keys(line) + ([Key(0, 13 as char)] + rest);
    assert keys[|line|] == Key(0, 13 as char);
    forall i | 0 <= i < |line|
      ensures !IsEnter(keys[i])
    {
      assert keys[i] == Key(0, line[i]) && line[i] in line;
    }
  }

  lemma TypedText(history: seq<string>, line: string)
    requires Lines(history) && Fits(history, 256) && Ordinary(line) && |line| < 256
    ensures Sound(Fresh(history, 256)) && PressAll(Fresh(history, 256), Keys(line)).Text() == line
  {
    TypingInserts(Fresh(history, 256), line);
    hide PressAll;
    assert "" + line + "" == line;
  }

  /** Where the arguments of a line stand in the buffer: each terminated, and none if there are none. */
  ghost predicate Split(commandLine: array<char>, line: string, argc: nat, argv: array?<nat>)
    reads commandLine, argv
  {
    && argc == |Tokenizer.Spans(line, ' ', 0)| && (argc == 0 <==> argv == null)
    && (argv != null ==>
          && argv.Length == argc
          && Tokenizer.Recorded(commandLine[..], argv[..], line, Tokenizer.Spans(line, ' ', 0), argc))
  }

  /** One turn of the shell's loop: a line is read, remembered and split into arguments in the same buffer. */
  method Turn(shell: Shell, commandLine: array<char>, keys: seq<Key>)
    returns (submitted: bool, used: nat, argc: nat, argv: array?<nat>, ghost line: string)
    requires shell.Valid() && commandLine.Length == MAX_LINE_LENGTH
    modifies shell, commandLine, shell.history
    ensures shell.Valid() && ReadTo(keys, used) && (submitted <==> used < |keys|)
    ensures Commands(old(shell.lines), keys)
         == if submitted then [line] + Commands(shell.lines, keys[used + 1..]) else []
    ensures shell.lines == if submitted then Submit(old(shell.lines), line) else old(shell.lines)
    ensures submitted ==> Split(commandLine, line, argc, argv)
  {
    hide PressAll, Press, Commands, Submit;
    argc, argv := 0, null;
    submitted, used := shell.ReadCommand(commandLine, keys);
    line := CommandsNext(old(shell.lines), keys, used);
    if submitted {
      assert Tokenizer.Terminated(commandLine[..], 0, line);
      argc, argv := Tokenizer.ParseCommand(commandLine, line);
    }
  }

  /** How many arguments each of the lines has. */
  ghost predicate CountsOf(lines: seq<string>, counts: seq<nat>) {
    |counts| == |lines| && forall i :: 0 <= i < |lines| ==> counts[i] == |Tokenizer.Spans(lines[i], ' ', 0)|
  }

  lemma CountedOneMore(lines: seq<string>, counts: seq<nat>, line: string, argc: nat)
    requires CountsOf(lines, counts) && argc == |Tokenizer.Spans(line, ' ', 0)|
    ensures CountsOf(lines + [line], counts + [argc])
  {
  }

  /** Where a session stands: what it has done so far and what its keys still hold make up the whole, and the
      history holds the last of all lines. */
  ghost predicate InSession(first: seq<string>, lines: seq<string>, commands: seq<string>, counts: seq<nat>,
                            left: seq<Key>, all: seq<string>)
  {
    && Lines(lines) && commands + Commands(lines, left) == all
    && lines == Last(first + NonEmpty(commands), HISTORY_ENTRIES) && CountsOf(commands, counts)
  }

  lemma SessionBegins(lines: seq<string>, keys: seq<Key>)
    requires Lines(lines)
    ensures InSession(lines, lines, [], [], keys, Commands(lines, keys))
  {
    assert lines + NonEmpty([]) == lines;
  }

  lemma SessionGoesOn(first: seq<string>, lines: seq<string>, commands: seq<string>, counts: seq<nat>,
                      left: seq<Key>, all: seq<string>, used: nat, line: string, argc: nat)
    requires InSession(first, lines, commands, counts, left, all) && used < |left|
    requires Lines(Submit(lines, line)) && argc == |Tokenizer.Spans(line, ' ', 0)|
    requires Commands(lines, left) == [line] + Commands(Submit(lines, line), left[used + 1..])
    ensures InSession(first, Submit(lines, line), commands + [line], counts + [argc], left[used + 1..], all)
  {
    hide Commands, Last, NonEmpty, Submit;
    SubmitIsLast(first, commands, line);
    CountedOneMore(commands, counts, line, argc);
    var rest := Commands(Submit(lines, line), left[used + 1..]);
    assert commands + ([line] + rest) == commands + [line] + rest;
  }

  lemma SessionEnds(first: seq<string>, lines: seq<string>, commands: seq<string>, counts: seq<nat>,
                    left: seq<Key>, all: seq<string>)
    requires InSession(first, lines, commands, counts, left, all) && Commands(lines, left) == []
    ensures commands == all && lines == Last(first + NonEmpty(commands), HISTORY_ENTRIES) && CountsOf(commands, counts)
  {
  }

  /** The loop of StartLoaderShell on the keys up to the end of the session. */
  method Session(shell: Shell, commandLine: array<char>, keys: seq<Key>)
    returns (ghost commands: seq<string>, argumentCounts: seq<nat>)
    requires shell.Valid() && commandLine.Length == MAX_LINE_LENGTH
    modifies shell, commandLine, shell.history
    ensures shell.Valid()
    ensures commands == Commands(old(shell.lines), keys)
    ensures shell.lines == Last(old(shell.lines) + NonEmpty(commands), 20)
    ensures CountsOf(commands, argumentCounts)
  {
    commands, argumentCounts := [], [];
    var left := keys;
    ghost var first, all := shell.lines, Commands(shell.lines, keys);
    SessionBegins(first, keys);
    hide InSession, Commands, Submit, CountsOf, ReadTo, Last, NonEmpty, Split;
    while true
      invariant shell.Valid() && InSession(first, shell.lines, commands, argumentCounts, left, all)
      decreases |left|
    {
      var submitted, used, argc, argv;
      ghost var line, before := "", shell.lines;
      submitted, used, argc, argv, line := Turn(shell, commandLine, left);
      if !submitted {
        SessionEnds(first, before, commands, argumentCounts, left, all);
        return;
      }
      ReadFits(left, used);
      SplitCounts(commandLine, line, argc, argv);
      SessionGoesOn(first, before, commands, argumentCounts, left, all, used, line, argc);
      commands, argumentCounts := commands + [line], argumentCounts + [argc];
      left := left[used + 1..];
    }
  }

  lemma ReadFits(keys: seq<Key>, used: nat)
    requires ReadTo(keys, used)
    ensures used <= |keys|
  {
  }

  lemma SplitCounts(commandLine: array<char>, line: string, argc: nat, argv: array?<nat>)
    requires Split(commandLine, line, argc, argv)
    ensures argc == |Tokenizer.Spans(line, ' ', 0)|
  {
  }
}
