/** RTL's tokenizer, and two scanners that count the pieces of a text in one pass and collect them in a second,
    against a pure splitter into maximal runs free of the delimiter. */
module Tokenizer {
  import opened Wrappers

  const NUL := '\0'

  datatype Span = Span(start: nat, end: nat)

  /** Where the run that includes `at` ends. */
  function RunEnd(s: string, d: char, at: nat): (e: nat)
    requires at <= |s|
    ensures at <= e <= |s| && d !in s[at..e] && (e < |s| ==> s[e] == d)
    decreases |s| - at
  {
    if at == |s| || s[at] == d then at
    else
      assert s[at..RunEnd(s, d, at + 1)] == [s[at]] + s[at + 1..RunEnd(s, d, at + 1)];
      RunEnd(s, d, at + 1)
  }

  /** The runs of `s` from `at` on, in order. */
  function Spans(s: string, d: char, at: nat): seq<Span>
    requires at <= |s|
    decreases |s| - at
  {
    if at == |s| then []
    else if s[at] == d then Spans(s, d, at + 1)
    else [Span(at, RunEnd(s, d, at))] + Spans(s, d, RunEnd(s, d, at))
  }

  /** From `at` on the text is delimiters, a run, delimiters, a run and so on: each span is non-empty, free
      of delimiters and ended by one or by the end of the text, and everything between spans is delimiters. */
  ghost predicate Splits(s: string, d: char, at: nat, r: seq<Span>)
    decreases |r|
  {
    if r == [] then at <= |s| && forall i :: at <= i < |s| ==> s[i] == d
    else
      && at <= r[0].start < r[0].end <= |s|
      && (forall i :: at <= i < r[0].start ==> s[i] == d)
      && d !in s[r[0].start..r[0].end]
      && (r[0].end < |s| ==> s[r[0].end] == d)
      && Splits(s, d, r[0].end, r[1..])
  }

  /** The splitter finds exactly the maximal runs. */
  lemma {:induction false} SpansSplit(s: string, d: char, at: nat)
    requires at <= |s|
    ensures Splits(s, d, at, Spans(s, d, at))
    decreases |s| - at
  {
    if at < |s| {
      if s[at] == d {
        SpansSplit(s, d, at + 1);
      } else {
        SpansSplit(s, d, RunEnd(s, d, at));
      }
    }
  }

  /** And no other division of the text into runs exists. */
  lemma {:induction false} SplitUnique(s: string, d: char, at: nat, q: seq<Span>, r: seq<Span>)
    requires Splits(s, d, at, q) && Splits(s, d, at, r)
    ensures q == r
    decreases |q|
  {
    if q != [] {
      NoDelimiter(s, d, q[0]);
    }
    if r != [] {
      NoDelimiter(s, d, r[0]);
    }
    if q != [] && r != [] {
      SameRun(s, d, at, q[0], r[0]);
      SplitUnique(s, d, q[0].end, q[1..], r[1..]);
    }
  }

  lemma NoDelimiter(s: string, d: char, x: Span)
    requires x.start < x.end <= |s| && d !in s[x.start..x.end]
    ensures s[x.start] != d
  {
    assert s[x.start] == s[x.start..x.end][0];
  }

  /** Two runs found behind the same delimiters are the same. */
  lemma SameRun(s: string, d: char, at: nat, x: Span, y: Span)
    requires at <= x.start < x.end <= |s| && at <= y.start < y.end <= |s|
    requires forall i :: at <= i < x.start || at <= i < y.start ==> s[i] == d
    requires d !in s[x.start..x.end] && d !in s[y.start..y.end]
    requires (x.end < |s| ==> s[x.end] == d) && (y.end < |s| ==> s[y.end] == d)
    ensures x == y
  {
    assert s[x.start] in s[x.start..x.end] && s[y.start] in s[y.start..y.end];
  }

  /** A terminated text in a buffer, read from an offset. */
  ghost predicate Terminated(buffer: seq<char>, start: nat, text: string) {
    start + |text| < |buffer| && buffer[start..start + |text|] == text && buffer[start + |text|] == NUL && NUL !in text
  }

  // ---------------------------------------------------------------- RTL's tokenizer

  /** The tokens of RTL's tokenizer from `at` on. It does not look for a delimiter where a token begins. */
  function WideTokens(s: string, d: char, at: nat): seq<string>
    requires at <= |s|
    decreases |s| - at
  {
    if at == |s| then []
    else
      var e := RunEnd(s, d, at + 1);
      [s[at..e]] + if e < |s| then WideTokens(s, d, e + 1) else []
  }

  /** What is still to come when the tokenizer has saved this place, or none. */
  function Remaining(s: string, d: char, save: Option<nat>): seq<string>
    requires save.Some? ==> save.value <= |s|
  {
    if save.None? then [] else WideTokens(s, d, save.value)
  }

  /** TokenizeWideString with one delimiter. */
  method TokenizeWideString(s: string, d: char, from: Option<nat>) returns (token: Option<string>, save: Option<nat>)
    requires from.Some? ==> from.value <= |s|
    ensures save.Some? ==> save.value <= |s| && token.Some?
    ensures var rest := Remaining(s, d, from);
            if token.None? then rest == []
            else rest != [] && token.value == rest[0] && Remaining(s, d, save) == rest[1..]
  {
    if from.None? || from.value == |s| {
      return None, None;
    }
    var end := from.value + 1;
    while end < |s| && s[end] != d
      invariant from.value < end <= |s| && RunEnd(s, d, end) == RunEnd(s, d, from.value + 1)
    {
      end := end + 1;
    }
    token := Some(s[from.value..end]);
    save := if end < |s| then Some(end + 1) else None;
  }

  /** Texts one behind the other with a delimiter between each two. */
  ghost function Join(ts: seq<string>, d: char): string {
    if ts == [] then "" else if |ts| == 1 then ts[0] else ts[0] + [d] + Join(ts[1..], d)
  }

  /** Joined, they give the text, up to one delimiter at its end. */
  ghost predicate Rejoins(text: string, ts: seq<string>, d: char) {
    (text == Join(ts, d) || text == Join(ts, d) + [d]) && (ts == [] ==> text == "")
  }

  lemma RejoinsOne(x: string, text: string, ts: seq<string>, d: char)
    requires Rejoins(text, ts, d)
    ensures Rejoins(x + [d] + text, [x] + ts, d)
  {
    assert ([x] + ts)[1..] == ts;
    assert x + [d] + (Join(ts, d) + [d]) == x + [d] + Join(ts, d) + [d];
    if ts == [] {
      assert x + [d] + text == x + [d];
    }
  }

  lemma RejoinsEnd(x: string, d: char)
    ensures Rejoins("", [], d) && Rejoins(x, [x], d)
  {
  }

  lemma CutAt(s: string, at: nat, e: nat)
    requires at <= e < |s|
    ensures s[at..] == s[at..e] + [s[e]] + s[e + 1..]
  {
  }

  /** In any text: joined again, the tokens give the text, up to one delimiter at its end. */
  lemma {:induction false} TokensJoin(s: string, d: char, at: nat)
    requires at <= |s|
    ensures Rejoins(s[at..], WideTokens(s, d, at), d)
    decreases |s| - at
  {
    hide *;
    RejoinsEnd(s[at..], d);
    if at == |s| {
      NothingAtTheEnd(s, d);
      assert s[at..] == "";
    } else {
      var e := RunEnd(s, d, at + 1);
      OneToken(s, d, at);
      if e < |s| {
        TokensJoin(s, d, e + 1);
        RejoinsOne(s[at..e], s[e + 1..], WideTokens(s, d, e + 1), d);
        CutAt(s, at, e);
      } else {
        assert s[at..e] == s[at..] && [s[at..]] + [] == [s[at..]];
      }
    }
  }

  /** No token is empty or holds a delimiter behind its first character. */
  predicate Clean(token: string, d: char) { token != "" && d !in token[1..] }

  ghost predicate AllClean(ts: seq<string>, d: char) {
    forall k :: 0 <= k < |ts| ==> Clean(ts[k], d)
  }

  lemma CleanFirst(x: string, ts: seq<string>, d: char)
    requires Clean(x, d)
    ensures AllClean(ts, d) ==> AllClean([x] + ts, d)
  {
    hide Clean;
  }

  lemma NoneUnclean(d: char)
    ensures AllClean([], d)
  {
  }

  lemma {:induction false} TokensClean(s: string, d: char, at: nat)
    requires at <= |s|
    ensures AllClean(WideTokens(s, d, at), d)
    decreases |s| - at
  {
    hide *;
    if at == |s| {
      NothingAtTheEnd(s, d);
      NoneUnclean(d);
    } else {
      var e := RunEnd(s, d, at + 1);
      CleanRun(s, d, at);
      OneToken(s, d, at);
      var rest := if e < |s| then WideTokens(s, d, e + 1) else [];
      CleanFirst(s[at..e], rest, d);
      if e < |s| {
        TokensClean(s, d, e + 1);
      } else {
        NoneUnclean(d);
      }
    }
  }

  lemma CleanRun(s: string, d: char, at: nat)
    requires at < |s|
    ensures Clean(s[at..RunEnd(s, d, at + 1)], d)
  {
    var e := RunEnd(s, d, at + 1);
    hide RunEnd;
    assert s[at..e][1..] == s[at + 1..e];
  }

  /** Every delimiter stands behind a character of a run. */
  predicate Tidy(s: string, d: char, at: nat) {
    forall i :: at <= i < |s| && s[i] == d ==> i > at && s[i - 1] != d
  }

  function Texts(s: string, d: char, at: nat): seq<string>
    requires at <= |s|
    decreases |s| - at
  {
    if at == |s| then []
    else if s[at] == d then Texts(s, d, at + 1)
    else [s[at..RunEnd(s, d, at)]] + Texts(s, d, RunEnd(s, d, at))
  }

  /** The texts of the runs are those of the splitter. */
  lemma {:induction false} TextsAreSpans(s: string, d: char, at: nat)
    requires at <= |s|
    ensures |Texts(s, d, at)| == |Spans(s, d, at)|
    ensures forall k :: 0 <= k < |Spans(s, d, at)| ==>
              && Spans(s, d, at)[k].start <= Spans(s, d, at)[k].end <= |s|
              && Texts(s, d, at)[k] == s[Spans(s, d, at)[k].start..Spans(s, d, at)[k].end]
    decreases |s| - at
  {
    if at < |s| {
      TextsAreSpans(s, d, if s[at] == d then at + 1 else RunEnd(s, d, at));
    }
  }

  /** RTL's tokenizer finds the maximal runs exactly in a text that does not begin with a delimiter and has no two
      in a row. */
  lemma {:induction false} TokensAreRunsIff(s: string, d: char, at: nat)
    requires at <= |s|
    ensures WideTokens(s, d, at) == Texts(s, d, at) <==> Tidy(s, d, at)
    decreases |s| - at
  {
    hide WideTokens, Texts, RunEnd, Tidy;
    if at == |s| {
      NothingAtTheEnd(s, d);
    } else if s[at] == d {
      TokenWithDelimiter(s, d, at);
    } else {
      var e := RunEnd(s, d, at + 1);
      OneTokenOneRun(s, d, at);
      if e < |s| {
        TokensAreRunsIff(s, d, e + 1);
        TidyAfter(s, d, at, e);
      } else {
        assert s[at..e] == s[at..];
        TidyToTheEnd(s, d, at);
      }
    }
  }

  lemma NothingAtTheEnd(s: string, d: char)
    ensures WideTokens(s, d, |s|) == Texts(s, d, |s|) == [] && Tidy(s, d, |s|)
  {
  }

  /** A delimiter where a token begins becomes part of the token. */
  lemma TokenWithDelimiter(s: string, d: char, at: nat)
    requires at < |s| && s[at] == d
    ensures WideTokens(s, d, at) != Texts(s, d, at) && !Tidy(s, d, at)
  {
    assert WideTokens(s, d, at)[0][0] == d;
    NoDelimiterInTexts(s, d, at);
    hide RunEnd, Texts, WideTokens;
  }

  lemma OneTokenOneRun(s: string, d: char, at: nat)
    requires at < |s| && s[at] != d
    ensures var e := RunEnd(s, d, at + 1);
            && d !in s[at..e]
            && (WideTokens(s, d, at) == Texts(s, d, at) <==>
                  e < |s| ==> WideTokens(s, d, e + 1) == Texts(s, d, e + 1))
  {
    hide WideTokens, Texts, RunEnd;
    OneToken(s, d, at);
    OneRun(s, d, at);
    FirstRun(s, d, at);
    var e := RunEnd(s, d, at + 1);
    if e < |s| {
      SameHead(s[at..e], WideTokens(s, d, e + 1), Texts(s, d, e + 1));
    }
  }

  lemma FirstRun(s: string, d: char, at: nat)
    requires at < |s| && s[at] != d
    ensures d !in s[at..RunEnd(s, d, at + 1)]
  {
    var e := RunEnd(s, d, at + 1);
    hide RunEnd;
    assert s[at..e] == [s[at]] + s[at + 1..e];
  }

  lemma SameHead(x: string, a: seq<string>, b: seq<string>)
    ensures [x] + a == [x] + b <==> a == b
  {
    assert ([x] + a)[1..] == a && ([x] + b)[1..] == b;
  }

  lemma OneToken(s: string, d: char, at: nat)
    requires at < |s|
    ensures var e := RunEnd(s, d, at + 1);
            WideTokens(s, d, at) == [s[at..e]] + (if e < |s| then WideTokens(s, d, e + 1) else [])
  {
    hide RunEnd;
  }

  lemma OneRun(s: string, d: char, at: nat)
    requires at < |s| && s[at] != d
    ensures var e := RunEnd(s, d, at + 1);
            Texts(s, d, at) == [s[at..e]] + (if e < |s| then Texts(s, d, e + 1) else [])
  {
    var e := RunEnd(s, d, at + 1);
    assert RunEnd(s, d, at) == e;
    assert Texts(s, d, e) == if e < |s| then Texts(s, d, e + 1) else [];
  }

  lemma TidyToTheEnd(s: string, d: char, at: nat)
    requires at <= |s| && d !in s[at..]
    ensures Tidy(s, d, at)
  {
    assert forall i :: at <= i < |s| ==> s[at..][i - at] == s[i];
  }

  lemma TidyAfter(s: string, d: char, at: nat, e: nat)
    requires at < e < |s| && d !in s[at..e] && s[e] == d
    ensures Tidy(s, d, at) <==> Tidy(s, d, e + 1)
  {
    assert forall i :: at <= i < e ==> s[at..e][i - at] == s[i];
  }

  lemma {:induction false} NoDelimiterInTexts(s: string, d: char, at: nat)
    requires at <= |s|
    ensures forall k :: 0 <= k < |Texts(s, d, at)| ==> d !in Texts(s, d, at)[k]
    decreases |s| - at
  {
    if at < |s| {
      NoDelimiterInTexts(s, d, if s[at] == d then at + 1 else RunEnd(s, d, at));
    }
  }

  // ---------------------------------------------------------------- the shell's command line

  /** The counting pass of ParseCommand. */
  method CountArguments(commandLine: array<char>, ghost text: string) returns (argumentCount: nat)
    requires Terminated(commandLine[..], 0, text)
    ensures argumentCount == |Spans(text, ' ', 0)|
  {
    argumentCount := 0;
    var tempLine := 0;
    while commandLine[tempLine] != NUL
      invariant tempLine <= |text| && argumentCount + |Spans(text, ' ', tempLine)| == |Spans(text, ' ', 0)|
      decreases |text| - tempLine
    {
      tempLine := SkipSpaces(commandLine, tempLine, text);
      if commandLine[tempLine] == NUL {
        break;
      }
      argumentCount := argumentCount + 1;
      tempLine := SkipToken(commandLine, tempLine, text);
    }
  }

  /** The text from `at` on is still as it was typed. */
  ghost predicate Unread(commandLine: seq<char>, at: nat, text: string) {
    && at <= |text| < |commandLine| && NUL !in text && commandLine[|text|] == NUL
    && commandLine[at..|text|] == text[at..]
  }

  lemma UnreadAt(commandLine: seq<char>, at: nat, text: string, i: nat)
    requires Unread(commandLine, at, text) && at <= i <= |text|
    ensures Unread(commandLine, i, text)
    ensures if i == |text| then commandLine[i] == NUL else commandLine[i] == text[i] != NUL
  {
    assert commandLine[i..|text|] == commandLine[at..|text|][i - at..];
    if i < |text| {
      assert commandLine[i] == commandLine[at..|text|][i - at] == text[at..][i - at];
      assert text[i] in text;
    }
  }

  method SkipSpaces(commandLine: array<char>, at: nat, ghost text: string) returns (next: nat)
    requires Unread(commandLine[..], at, text)
    ensures at <= next && Unread(commandLine[..], next, text) && Spans(text, ' ', next) == Spans(text, ' ', at)
    ensures commandLine[next] == NUL <==> next == |text|
    ensures next < |text| ==> text[next] != ' '
  {
    next := at;
    UnreadAt(commandLine[..], at, text, next);
    while commandLine[next] == ' '
      invariant at <= next <= |text| && Spans(text, ' ', next) == Spans(text, ' ', at)
      invariant Unread(commandLine[..], next, text)
      decreases |text| - next
    {
      UnreadAt(commandLine[..], at, text, next);
      UnreadAt(commandLine[..], at, text, next + 1);
      next := next + 1;
    }
    UnreadAt(commandLine[..], at, text, next);
  }

  method SkipToken(commandLine: array<char>, at: nat, ghost text: string) returns (next: nat)
    requires Unread(commandLine[..], at, text) && at < |text| && text[at] != ' '
    ensures at < next == RunEnd(text, ' ', at) && Unread(commandLine[..], next, text)
    ensures commandLine[next] == NUL <==> next == |text|
  {
    next := at;
    UnreadAt(commandLine[..], at, text, next);
    while commandLine[next] != NUL && commandLine[next] != ' '
      invariant at <= next <= |text| && RunEnd(text, ' ', next) == RunEnd(text, ' ', at)
      invariant Unread(commandLine[..], next, text)
      decreases |text| - next
    {
      UnreadAt(commandLine[..], at, text, next);
      UnreadAt(commandLine[..], at, text, next + 1);
      next := next + 1;
    }
    UnreadAt(commandLine[..], at, text, next);
  }

  ghost function Token(text: string, span: Span): string
    requires span.start <= span.end <= |text|
  {
    text[span.start..span.end]
  }

  /** The first `n` tokens stand terminated in the buffer where the vector points. */
  ghost predicate Recorded(buffer: seq<char>, vector: seq<nat>, text: string, spans: seq<Span>, n: nat) {
    n <= |spans| && n <= |vector| && forall k :: 0 <= k < n ==>
      && spans[k].start <= spans[k].end <= |text| && vector[k] == spans[k].start
      && Terminated(buffer, vector[k], Token(text, spans[k]))
  }

  /** The second pass has recorded `n` tokens and stands at `at`. */
  ghost predicate Progress(buffer: seq<char>, vector: seq<nat>, text: string, spans: seq<Span>, n: nat, at: nat) {
    && Unread(buffer, at, text) && Recorded(buffer, vector, text, spans, n)
    && spans[n..] == Spans(text, ' ', at) && (forall k :: 0 <= k < n ==> spans[k].end <= at)
  }

  /** What the second pass does to a token that ends at `e`. */
  lemma RecordStep(buffer: seq<char>, vector: seq<nat>, text: string, spans: seq<Span>, n: nat, at: nat, e: nat)
    requires Progress(buffer, vector, text, spans, n, at) && |vector| == |spans|
    requires at < |text| && text[at] != ' ' && e == RunEnd(text, ' ', at)
    ensures n < |spans|
    ensures var buffer' := if e < |text| then buffer[e := NUL] else buffer;
            Progress(buffer', vector[n := at], text, spans, n + 1, if e < |text| then e + 1 else e)
  {
    hide Unread, Terminated, RunEnd, Spans;
    SpansStep(text, spans, n, at);
    UnreadFits(buffer, at, text);
    KeptByStep(buffer, vector, text, spans, n, at, e);
    MadeByStep(buffer, text, at, e);
  }

  lemma UnreadFits(buffer: seq<char>, at: nat, text: string)
    requires Unread(buffer, at, text)
    ensures at <= |text| < |buffer|
  {
  }

  lemma SpansStep(text: string, spans: seq<Span>, n: nat, at: nat)
    requires n <= |spans| && at < |text| && spans[n..] == Spans(text, ' ', at) && text[at] != ' '
    ensures var e := RunEnd(text, ' ', at);
            && at < e <= |text| && n < |spans| && spans[n] == Span(at, e)
            && spans[n + 1..] == Spans(text, ' ', if e < |text| then e + 1 else e)
  {
    assert spans[n..][0] == spans[n] && spans[n..][1..] == spans[n + 1..];
  }

  /** Writing the terminator at `e` leaves the tokens before it alone. */
  lemma KeptByStep(buffer: seq<char>, vector: seq<nat>, text: string, spans: seq<Span>, n: nat, at: nat, e: nat)
    requires Recorded(buffer, vector, text, spans, n) && at < e < |buffer|
    requires forall k :: 0 <= k < n ==> spans[k].end <= at
    ensures Recorded(buffer[e := NUL], vector, text, spans, n)
  {
    forall k | 0 <= k < n
      ensures Terminated(buffer[e := NUL], vector[k], Token(text, spans[k]))
    {
      assert buffer[e := NUL][vector[k]..spans[k].end] == buffer[vector[k]..spans[k].end];
    }
  }

  /** It terminates its own token and leaves the rest of the line unread. */
  lemma MadeByStep(buffer: seq<char>, text: string, at: nat, e: nat)
    requires Unread(buffer, at, text) && at < e <= |text|
    ensures var buffer' := if e < |text| then buffer[e := NUL] else buffer;
            && Terminated(buffer', at, text[at..e])
            && Unread(buffer', if e < |text| then e + 1 else e, text)
  {
    UnreadAt(buffer, at, text, e);
    assert buffer[at..e] == buffer[at..|text|][..e - at];
    assert text[at..][..e - at] == text[at..e];
    var buffer' := if e < |text| then buffer[e := NUL] else buffer;
    assert buffer'[at..e] == buffer[at..e];
    assert forall i :: at <= i < e ==> text[i] in text;
    if e < |text| {
      UnreadAt(buffer, at, text, e + 1);
      assert buffer'[e + 1..|text|] == buffer[e + 1..|text|];
    }
  }

  /** ParseCommand: the vector has exactly the counted size, and its `i`-th entry points at the `i`-th run of
      the line, terminated in place. */
  method ParseCommand(commandLine: array<char>, ghost text: string) returns (argc: nat, argv: array?<nat>)
    requires Terminated(commandLine[..], 0, text)
    modifies commandLine
    ensures argc == |Spans(text, ' ', 0)| && (argc == 0 <==> argv == null)
    ensures argv != null ==> argv.Length == argc && Recorded(commandLine[..], argv[..], text, Spans(text, ' ', 0), argc)
  {
    var argumentCount := CountArguments(commandLine, text);
    if argumentCount == 0 {
      return 0, null;
    }
    ghost var spans := Spans(text, ' ', 0);
    var argumentVector := new nat[argumentCount];
    argumentCount := 0;
    var tempLine: nat := 0;
    assert commandLine[..][0..|text|] == text[0..];
    while commandLine[tempLine] != NUL
      invariant Progress(commandLine[..], argumentVector[..], text, spans, argumentCount, tempLine)
      decreases |text| - tempLine
    {
      UnreadAt(commandLine[..], tempLine, text, tempLine);
      tempLine := SkipSpaces(commandLine, tempLine, text);
      if commandLine[tempLine] == NUL {
        break;
      }
      ghost var start, before, vector := tempLine, commandLine[..], argumentVector[..];
      RecordStep(before, vector, text, spans, argumentCount, start, RunEnd(text, ' ', start));
      argumentVector[argumentCount] := tempLine;
      argumentCount := argumentCount + 1;
      tempLine := SkipToken(commandLine, tempLine, text);
      if commandLine[tempLine] != NUL {
        commandLine[tempLine] := NUL;
        tempLine := tempLine + 1;
      }
    }
    UnreadAt(commandLine[..], tempLine, text, tempLine);
    return argumentCount, argumentVector;
  }

  // ---------------------------------------------------------------- the strings of a module's section

  datatype Status = Success | InvalidParameter | EndOfFile

  /** GetModuleInfoStrings on a section of `sectionSize` bytes: leading padding is skipped, and the offsets
      returned, exactly as many as were counted, point at the terminated runs of the copied data. */
  method GetModuleInfoStrings(sectionData: seq<char>, present: bool, sectionSize: nat)
    returns (status: Status, strings: seq<char>, offsets: array?<nat>, infoCount: nat)
    requires sectionSize / 2 <= |sectionData|
    ensures status == InvalidParameter <==> !present || sectionSize == 0
    ensures status != Success ==> offsets == null && infoCount == 0
    ensures status == EndOfFile <==> present && sectionSize > 0 && Spans(sectionData[..sectionSize / 2], NUL, 0) == []
    ensures status == Success ==>
              exists skipped: nat :: Collected(sectionData[..sectionSize / 2], skipped, strings, offsets, infoCount)
  {
    strings := [];
    if !present || sectionSize == 0 {
      return InvalidParameter, strings, null, 0;
    }
    var data := sectionData[..sectionSize / 2];
    var skipped: nat := 0;
    while skipped < |data| && data[skipped] == NUL
      invariant skipped <= |data| && Spans(data, NUL, skipped) == Spans(data, NUL, 0)
      invariant forall i :: 0 <= i < skipped ==> data[i] == NUL
    {
      skipped := skipped + 1;
    }
    if |data| - skipped < 1 {
      return EndOfFile, strings, null, 0;
    }
    var info := data[skipped..];
    var count := CountStrings(info);
    strings := info + [NUL];
    offsets := Collect(info, count);
    assert Collected(data, skipped, strings, offsets, count);
    return Success, strings, offsets, count;
  }

  /** All leading padding was skipped and nothing else, and every run of the rest is found at its offset. */
  ghost predicate Collected(data: string, skipped: nat, strings: seq<char>, offsets: array?<nat>, infoCount: nat)
    reads offsets
  {
    && skipped < |data| && data[skipped] != NUL && (forall i :: 0 <= i < skipped ==> data[i] == NUL)
    && strings == data[skipped..] + [NUL]
    && var spans := Spans(data[skipped..], NUL, 0);
       && offsets != null && offsets.Length == infoCount == |spans|
       && forall k :: 0 <= k < |spans| ==>
            && offsets[k] == spans[k].start < spans[k].end <= |data| - skipped
            && Terminated(strings, offsets[k], Token(data[skipped..], spans[k]))
  }

  method NextString(info: string, at: nat) returns (next: nat)
    requires at < |info| && info[at] != NUL
    ensures at < next <= |info| && (next < |info| ==> info[next] != NUL)
    ensures Spans(info, NUL, at) == [Span(at, RunEnd(info, NUL, at))] + Spans(info, NUL, next)
  {
    next := at;
    while next < |info| && info[next] != NUL
      invariant at <= next <= |info| && RunEnd(info, NUL, next) == RunEnd(info, NUL, at)
    {
      next := next + 1;
    }
    while next < |info| && info[next] == NUL
      invariant at < next <= |info| && Spans(info, NUL, next) == Spans(info, NUL, RunEnd(info, NUL, at))
    {
      next := next + 1;
    }
  }

  method CountStrings(info: string) returns (count: nat)
    requires info != "" && info[0] != NUL
    ensures count == |Spans(info, NUL, 0)|
  {
    var index: nat := 0;
    count := 0;
    while index < |info|
      invariant index <= |info| && (index < |info| ==> info[index] != NUL)
      invariant count + |Spans(info, NUL, index)| == |Spans(info, NUL, 0)|
    {
      count := count + 1;
      index := NextString(info, index);
    }
  }

  method Collect(info: string, count: nat) returns (offsets: array<nat>)
    requires info != "" && info[0] != NUL && count == |Spans(info, NUL, 0)|
    ensures offsets.Length == count && fresh(offsets)
    ensures forall k :: 0 <= k < count ==> Located(info, Spans(info, NUL, 0)[k], offsets[k])
  {
    ghost var spans := Spans(info, NUL, 0);
    assert spans[0..] == spans;
    offsets := new nat[count];
    var index: nat, arrayIndex: nat := 0, 0;
    hide Terminated, Spans, Token;
    while index < |info| && arrayIndex < count
      invariant index <= |info| && (index < |info| ==> info[index] != NUL)
      invariant arrayIndex <= count && spans[arrayIndex..] == Spans(info, NUL, index)
      invariant forall k :: 0 <= k < arrayIndex ==> Located(info, spans[k], offsets[k])
    {
      var next := NextString(info, index);
      LocatedNext(info, spans, arrayIndex, index, next);
      offsets[arrayIndex] := index;
      arrayIndex := arrayIndex + 1;
      index := next;
    }
    NoneLeft(info, spans, arrayIndex, index);
  }

  /** The run is found, terminated, at the offset in the copied text. */
  ghost predicate Located(info: string, span: Span, offset: nat) {
    && offset == span.start < span.end <= |info|
    && Terminated(info + [NUL], span.start, Token(info, span))
  }

  lemma LocatedNext(info: string, spans: seq<Span>, n: nat, at: nat, next: nat)
    requires n < |spans| && at < next <= |info| && info[at] != NUL && spans[n..] == Spans(info, NUL, at)
    requires Spans(info, NUL, at) == [Span(at, RunEnd(info, NUL, at))] + Spans(info, NUL, next)
    ensures Located(info, spans[n], at) && spans[n + 1..] == Spans(info, NUL, next)
  {
    var e := RunEnd(info, NUL, at);
    assert spans[n..][0] == spans[n] && spans[n..][1..] == spans[n + 1..];
    assert (info + [NUL])[at..e] == info[at..e];
  }

  lemma NoneLeft(info: string, spans: seq<Span>, n: nat, at: nat)
    requires n <= |spans| && at <= |info| && spans[n..] == Spans(info, NUL, at) && (at == |info| || n == |spans|)
    ensures n == |spans|
  {
    assert at == |info| ==> spans[n..] == [];
  }
}
