/** Two ways to look up a parameter on a command line: the loader splits it into tokens, the kernel searches
    for the name and looks at its surroundings. */
module KernelParameters {
  import opened Tokenizer
  import opened WideString
  import opened Wrappers

  datatype Lookup = Found(at: nat) | Missing | Invalid

  // ---------------------------------------------------------------- the loader

  /** Some token of the parameters is the needle. */
  ghost predicate HasToken(parameters: string, needle: string) {
    exists k :: 0 <= k < |Spans(parameters, ' ', 0)| && IsToken(parameters, needle, Spans(parameters, ' ', 0)[k])
  }

  ghost predicate IsToken(parameters: string, needle: string, span: Span) {
    span.start <= span.end <= |parameters| && Same(parameters[span.start..span.end], needle)
  }

  method GetBooleanParameter(parameters: Option<string>, needle: Option<string>) returns (found: bool)
    ensures found <==>
              parameters.Some? && needle.Some? && needle.value != "" && HasToken(parameters.value, needle.value)
  {
    if parameters.None? || needle.None? || needle.value == "" {
      return false;
    }
    var p, name := parameters.value, needle.value;
    var current: nat := 0;
    ghost var spans, n: nat := Spans(p, ' ', 0), 0;
    while current < |p|
      invariant current <= |p| && n <= |spans| && spans[n..] == Spans(p, ' ', current)
      invariant forall k :: 0 <= k < n ==> !IsToken(p, name, spans[k])
    {
      while current < |p| && p[current] == ' '
        invariant current <= |p| && spans[n..] == Spans(p, ' ', current)
      {
        current := current + 1;
      }
      if current == |p| {
        break;
      }
      var tokenStart, tokenEnd := current, current;
      while tokenEnd < |p| && p[tokenEnd] != ' '
        invariant tokenStart <= tokenEnd <= |p| && RunEnd(p, ' ', tokenEnd) == RunEnd(p, ' ', tokenStart)
      {
        tokenEnd := tokenEnd + 1;
      }
      assert spans[n..][0] == spans[n] == Span(tokenStart, tokenEnd) && spans[n..][1..] == spans[n + 1..];
      var tokenLength := tokenEnd - tokenStart;
      assert IsToken(p, name, spans[n]) <==> tokenLength == |name| && MatchesAt(p, name, tokenStart);
      if tokenLength == |name| {
        var difference := CompareWideStringInsensitive(p[tokenStart..], name, |name|);
        assert difference == 0 <==> MatchesAt(p, name, tokenStart);
        if difference == 0 {
          return true;
        }
      }
      current := tokenEnd;
      n := n + 1;
    }
    assert spans[n..] == [];
    found := false;
  }

  // ---------------------------------------------------------------- the kernel

  /** The name stands at `at` between spaces or the ends, or before an equals sign. */
  predicate StandsAt(p: string, name: string, at: nat) {
    && MatchesAt(p, name, at) && (at == 0 || p[at - 1] == ' ')
    && (at + |name| == |p| || p[at + |name|] == ' ' || p[at + |name|] == '=')
  }

  /** The inner loop of FindWideStringInsensitive. */
  method CompareInsensitive(s: string, at: nat, name: string) returns (same: bool)
    requires at + |name| <= |s|
    ensures same <==> MatchesAt(s, name, at)
  {
    for k := 0 to |name|
      invariant forall j :: 0 <= j < k ==> FoldChar(s[at + j]) == FoldChar(name[j])
    {
      if FoldChar(s[at + k]) != FoldChar(name[k]) {
        return false;
      }
    }
    return true;
  }

  /** FindWideStringInsensitive: the first occurrence from `start` on. */
  method FindInsensitive(s: string, start: nat, name: string) returns (r: Lookup)
    requires start <= |s|
    ensures r.Found? ==> start <= r.at && MatchesAt(s, name, r.at) &&
                         forall i :: start <= i < r.at ==> !MatchesAt(s, name, i)
    ensures !r.Found? ==> r.Missing? && forall i :: start <= i ==> !MatchesAt(s, name, i)
  {
    var at := start;
    while at + |name| <= |s|
      invariant start <= at && forall i :: start <= i < at ==> !MatchesAt(s, name, i)
      decreases |s| - at
    {
      var matches := CompareInsensitive(s, at, name);
      if matches {
        return Found(at);
      }
      at := at + 1;
    }
    return Missing;
  }

  method GetKernelParameter(kernelParameters: string, parameterName: Option<string>) returns (r: Lookup)
    ensures r.Invalid? <==> parameterName.None? || parameterName.value == ""
    ensures r.Found? ==> StandsAt(kernelParameters, parameterName.value, r.at)
                         && forall i :: 0 <= i < r.at ==> !StandsAt(kernelParameters, parameterName.value, i)
    ensures r.Missing? ==> forall i :: 0 <= i ==> !StandsAt(kernelParameters, parameterName.value, i)
  {
    if parameterName.None? || parameterName.value == "" {
      return Invalid;
    }
    var p, name := kernelParameters, parameterName.value;
    var searchStart: nat := 0;
    while true
      invariant searchStart <= |p| && forall i :: 0 <= i < searchStart ==> !StandsAt(p, name, i)
      decreases |p| - searchStart
    {
      var m := FindInsensitive(p, searchStart, name);
      if !m.Found? {
        return Missing;
      }
      if m.at == 0 || p[m.at - 1] == ' ' {
        if m.at + |name| == |p| || p[m.at + |name|] == ' ' || p[m.at + |name|] == '=' {
          return m;
        }
      }
      searchStart := m.at + 1;
    }
  }

  // ---------------------------------------------------------------- both, in terms of tokens

  /** The token is the name, or the name and a value. */
  ghost predicate Gives(p: string, name: string, span: Span) {
    && span.start + |name| <= span.end <= |p| && MatchesAt(p, name, span.start)
    && (span.start + |name| < span.end ==> p[span.start + |name|] == '=')
  }

  /** `at` is where a token begins, and that token gives the name. */
  ghost predicate GivenAt(p: string, name: string, from: nat, at: nat)
    requires from <= |p|
  {
    exists k :: 0 <= k < |Spans(p, ' ', from)| && Spans(p, ' ', from)[k].start == at &&
                Gives(p, name, Spans(p, ' ', from)[k])
  }

  /** For a name without spaces, the places the kernel accepts are exactly the starts of the tokens that are
      the name or begin with the name and an equals sign. */
  lemma {:induction false} StandsIffGiven(p: string, name: string, from: nat, at: nat)
    requires name != "" && ' ' !in name && from <= at
    requires from <= |p| && (from == 0 || from == |p| || p[from - 1] == ' ' || p[from] == ' ')
    ensures StandsAt(p, name, at) <==> GivenAt(p, name, from, at)
    decreases |p| - from
  {
    if from < |p| {
      if p[from] == ' ' {
        assert Spans(p, ' ', from) == Spans(p, ' ', from + 1);
        if at > from {
          StandsIffGiven(p, name, from + 1, at);
        } else {
          if MatchesAt(p, name, at) {
            NoSpace(p, name, at, 0);
          }
          SpansFrom(p, from + 1);
        }
      } else {
        var e := RunEnd(p, ' ', from);
        var spans, rest := Spans(p, ' ', from), Spans(p, ' ', e);
        SpansFrom(p, e);
        assert spans == [Span(from, e)] + rest;
        if at >= e {
          StandsIffGiven(p, name, e, at);
          if GivenAt(p, name, e, at) {
            var k :| 0 <= k < |rest| && rest[k].start == at && Gives(p, name, rest[k]);
            assert spans[k + 1] == rest[k];
          }
        } else if at == from {
          OneToken(p, name, at, e);
          assert Gives(p, name, spans[0]) ==> GivenAt(p, name, from, at);
        } else {
          assert p[at - 1] in p[from..e] by {
            assert p[from..e][at - 1 - from] == p[at - 1];
          }
        }
      }
    }
  }

  lemma {:induction false} SpansFrom(p: string, from: nat)
    requires from <= |p|
    ensures forall k :: 0 <= k < |Spans(p, ' ', from)| ==> from <= Spans(p, ' ', from)[k].start
    decreases |p| - from
  {
    if from < |p| {
      SpansFrom(p, if p[from] == ' ' then from + 1 else RunEnd(p, ' ', from));
    }
  }

  lemma OneToken(p: string, name: string, at: nat, e: nat)
    requires name != "" && ' ' !in name && at < e <= |p| && ' ' !in p[at..e] && (e < |p| ==> p[e] == ' ')
    requires at == 0 || p[at - 1] == ' '
    ensures StandsAt(p, name, at) <==> Gives(p, name, Span(at, e))
  {
    if MatchesAt(p, name, at) {
      if e < at + |name| {
        NoSpace(p, name, at, e - at);
      } else if at + |name| < e {
        assert p[at..e][|name|] == p[at + |name|];
      }
    }
  }

  lemma NoSpace(p: string, name: string, at: nat, i: nat)
    requires MatchesAt(p, name, at) && ' ' !in name && i < |name|
    ensures p[at + i] != ' '
  {
    assert FoldChar(p[at + i]) == FoldChar(name[i]) && name[i] in name;
  }

  /** What the loader takes for set the kernel finds: whatever the parameters and the needle. */
  lemma LoaderImpliesKernel(p: string, needle: string)
    requires needle != "" && HasToken(p, needle)
    ensures exists at :: 0 <= at && StandsAt(p, needle, at)
  {
    var k :| 0 <= k < |Spans(p, ' ', 0)| && IsToken(p, needle, Spans(p, ' ', 0)[k]);
    var span := Spans(p, ' ', 0)[k];
    SpansSplit(p, ' ', 0);
    SpanBounded(p, 0, Spans(p, ' ', 0), k);
    assert forall i :: 0 <= i < |needle| ==> FoldChar(p[span.start..span.end][0 + i]) == FoldChar(needle[i]);
    assert MatchesAt(p, needle, span.start);
    assert StandsAt(p, needle, span.start);
  }

  lemma {:induction false} SpanBounded(p: string, from: nat, r: seq<Span>, k: nat)
    requires Splits(p, ' ', from, r) && k < |r| && (from == 0 || from == |p| || p[from - 1] == ' ' || p[from] == ' ')
    ensures from <= r[k].start < r[k].end <= |p|
    ensures r[k].start == 0 || p[r[k].start - 1] == ' '
    ensures r[k].end < |p| ==> p[r[k].end] == ' '
    decreases k
  {
    NoDelimiter(p, ' ', r[0]);
    if k > 0 {
      SpanBounded(p, r[0].end, r[1..], k - 1);
    }
  }

  // ---------------------------------------------------------------- the value

  /** The value of the parameter at `at`: behind the equals sign up to a space or the end; none otherwise. */
  function ValueAt(p: string, name: string, at: nat): (v: string)
    requires StandsAt(p, name, at)
  {
    var behind := at + |name|;
    if behind < |p| && p[behind] == '=' then p[behind + 1..RunEnd(p, ' ', behind + 1)] else ""
  }

  lemma {:induction false} RunEndIs(p: string, from: nat, e: nat)
    requires from <= e <= |p| && (forall i :: from <= i < e ==> p[i] != ' ') && (e < |p| ==> p[e] == ' ')
    ensures RunEnd(p, ' ', from) == e
    decreases e - from
  {
    if from < e {
      RunEndIs(p, from + 1, e);
    }
  }

  /** A parameter written with a value is read back with that value, whatever stands before and behind it and in
      whichever case the name is written. */
  lemma ValueReadBack(front: string, given: string, name: string, value: string, back: string)
    requires Fold(given) == Fold(name) && ' ' !in value
    requires (front == "" || front[|front| - 1] == ' ') && (back == "" || back[0] == ' ')
    ensures var p := front + given + ("=" + value + back);
            StandsAt(p, name, |front|) && ValueAt(p, name, |front|) == value
  {
    hide *;
    var head, tail := front + given, "=" + value + back;
    GivenStands(front, given, name, tail);
    assert |given| == |name| by {
      assert |Fold(given)| == |Fold(name)|;
    }
    assert (head + tail)[|head|..] == tail;
    assert tail[1..1 + |value|] == value && tail[0] == '=';
    ValueIs(head + tail, name, |front|, value);
  }

  lemma ValueIs(p: string, name: string, at: nat, value: string)
    requires StandsAt(p, name, at) && at + |name| < |p| && p[at + |name|] == '=' && ' ' !in value
    requires var tail, n := p[at + |name|..], |value|;
             1 + n <= |tail| && tail[1..1 + n] == value && (1 + n < |tail| ==> tail[1 + n] == ' ')
    ensures ValueAt(p, name, at) == value
  {
    ValueBehind(p, at + |name|, value);
  }

  lemma ValueBehind(p: string, behind: nat, value: string)
    requires behind < |p| && ' ' !in value
    requires var tail, n := p[behind..], |value|;
             1 + n <= |tail| && tail[1..1 + n] == value && (1 + n < |tail| ==> tail[1 + n] == ' ')
    ensures p[behind + 1..RunEnd(p, ' ', behind + 1)] == value
  {
    var e := behind + 1 + |value|;
    assert p[behind + 1..e] == value;
    forall i | behind + 1 <= i < e
      ensures p[i] != ' '
    {
      assert p[i] == p[behind + 1..e][i - behind - 1] && value[i - behind - 1] in value;
    }
    RunEndIs(p, behind + 1, e);
  }

  /** Written without an equals sign it has no value. */
  lemma NoValueReadBack(front: string, given: string, name: string, back: string)
    requires Fold(given) == Fold(name)
    requires (front == "" || front[|front| - 1] == ' ') && (back == "" || back[0] == ' ')
    ensures var p := front + given + back; StandsAt(p, name, |front|) && ValueAt(p, name, |front|) == ""
  {
    GivenStands(front, given, name, back);
  }

  lemma GivenStands(front: string, given: string, name: string, back: string)
    requires Fold(given) == Fold(name)
    requires (front == "" || front[|front| - 1] == ' ') && (back == "" || back[0] == ' ' || back[0] == '=')
    ensures StandsAt(front + given + back, name, |front|)
  {
    var p := front + given + back;
    forall k | 0 <= k < |name|
      ensures FoldChar(p[|front| + k]) == FoldChar(name[k])
    {
      assert p[|front| + k] == given[k] && Fold(given)[k] == Fold(name)[k];
    }
  }

  /** The value buffer holds the value, cut to its size, and a terminator. */
  ghost predicate HoldsValue(buffer: seq<char>, bufferSize: nat, value: string) {
    && 0 < bufferSize <= |buffer|
    && var n := if |value| < bufferSize then |value| else bufferSize - 1;
       buffer[..n] == value[..n] && buffer[n] == NUL
  }

  /** So a value that fits is there as a whole, and of any other as much as leaves room for the terminator. */
  lemma HeldValue(buffer: seq<char>, bufferSize: nat, value: string)
    requires HoldsValue(buffer, bufferSize, value)
    ensures |value| < bufferSize ==> buffer[..|value| + 1] == value + ['\0']
    ensures |value| >= bufferSize ==> buffer[..bufferSize] == value[..bufferSize - 1] + ['\0']
  {
  }

  method CopyValue(p: string, start: nat, valueBuffer: array<char>, bufferSize: nat)
    requires start <= |p| && 0 < bufferSize <= valueBuffer.Length
    modifies valueBuffer
    ensures HoldsValue(valueBuffer[..], bufferSize, p[start..RunEnd(p, ' ', start)])
    ensures valueBuffer[bufferSize..] == old(valueBuffer[bufferSize..])
  {
    var at, index: nat := start, 0;
    while at < |p| && p[at] != ' ' && index < bufferSize - 1
      invariant start + index == at <= |p| && index < bufferSize
      invariant RunEnd(p, ' ', at) == RunEnd(p, ' ', start)
      invariant valueBuffer[..index] == p[start..at]
      invariant valueBuffer[bufferSize..] == old(valueBuffer[bufferSize..])
    {
      valueBuffer[index] := p[at];
      index := index + 1;
      at := at + 1;
    }
    valueBuffer[index] := NUL;
    ghost var value := p[start..RunEnd(p, ' ', start)];
    assert valueBuffer[..][..index] == valueBuffer[..index] == value[..index];
  }

  method GetKernelParameterValue(kernelParameters: string, parameterName: Option<string>, valueBuffer: array?<char>,
                                 bufferSize: nat)
    returns (r: Lookup)
    requires valueBuffer != null ==> bufferSize <= valueBuffer.Length
    modifies if valueBuffer == null then {} else {valueBuffer}
    ensures r.Invalid? <==> parameterName.None? || parameterName.value == "" || valueBuffer == null || bufferSize == 0
    ensures valueBuffer != null ==> valueBuffer[bufferSize..] == old(valueBuffer[bufferSize..])
    ensures r.Missing? ==> valueBuffer[0] == NUL &&
                           forall i :: 0 <= i ==> !StandsAt(kernelParameters, parameterName.value, i)
    ensures r.Found? ==>
              && StandsAt(kernelParameters, parameterName.value, r.at)
              && (forall i :: 0 <= i < r.at ==> !StandsAt(kernelParameters, parameterName.value, i))
              && HoldsValue(valueBuffer[..], bufferSize, ValueAt(kernelParameters, parameterName.value, r.at))
  {
    if parameterName.None? || valueBuffer == null || bufferSize == 0 {
      return Invalid;
    }
    valueBuffer[0] := NUL;
    r := GetKernelParameter(kernelParameters, parameterName);
    if !r.Found? {
      return;
    }
    var p := kernelParameters;
    var behind: nat := r.at + |parameterName.value|;
    if behind < |p| && p[behind] == '=' {
      CopyValue(p, behind + 1, valueBuffer, bufferSize);
    }
  }
}
