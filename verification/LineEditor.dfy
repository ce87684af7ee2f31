/** The boot shell's line editor: a fixed buffer edited in place by overlapping moves, and a fixed table of
    earlier lines. The zipper it stands for is the text left and right of the cursor. */
module LineEditor {
  const MAX_LINE_LENGTH := 256
  const HISTORY_ENTRIES := 20
  const NUL := '\0'

  datatype Key = Key(scanCode: nat, unicodeChar: char)

  // ---------------------------------------------------------------- the zipper

  /** The line being edited, the earlier lines, how far back in them the editor stands, and the size of the
      buffer. */
  datatype Editor = Editor(left: string, right: string, history: seq<string>, index: nat, size: nat) {
    function Text(): string { left + right }

    function Replaced(text: string): Editor { this.(left := text, right := "") }
  }

  function Fresh(history: seq<string>, size: nat): Editor { Editor("", "", history, |history|, size) }

  predicate IsEnter(key: Key) { key.unicodeChar == 13 as char }

  /** What a key other than ENTER does. */
  function Press(e: Editor, key: Key): Editor
    requires e.index <= |e.history|
  {
    if key.scanCode == 0x01 then
      if e.index > 0 then e.(index := e.index - 1).Replaced(e.history[e.index - 1]) else e
    else if key.scanCode == 0x02 then
      if e.index < |e.history| then
        e.(index := e.index + 1).Replaced(if e.index + 1 == |e.history| then "" else e.history[e.index + 1])
      else e
    else if key.scanCode == 0x03 then
      if e.right != "" then e.(left := e.left + [e.right[0]], right := e.right[1..]) else e
    else if key.scanCode == 0x04 then
      if e.left != "" then e.(left := e.left[..|e.left| - 1], right := [e.left[|e.left| - 1]] + e.right) else e
    else if key.scanCode == 0x05 then e.(left := "", right := e.Text())
    else if key.scanCode == 0x06 then e.Replaced(e.Text())
    else if key.scanCode == 0x17 then Fresh(e.history, e.size)
    else if key.scanCode == 0x08 then
      if e.right != "" then e.(right := e.right[1..]) else e
    else if key.unicodeChar == 8 as char then
      if e.left != "" then e.(left := e.left[..|e.left| - 1]) else e
    else if key.unicodeChar == NUL then e
    else if |e.Text()| < e.size - 1 then e.(left := e.left + [key.unicodeChar])
    else e
  }

  /** The history after a line is submitted: empty lines are not kept, and a full table forgets its oldest. */
  function Submit(history: seq<string>, line: string): seq<string> {
    if line == "" then history
    else if |history| < HISTORY_ENTRIES then history + [line]
    else history[1..] + [line]
  }

  predicate Printable(s: string) { NUL !in s }

  /** A line that fits the buffer and holds no terminator. */
  predicate Line(s: string) { |s| < MAX_LINE_LENGTH && Printable(s) }

  predicate Lines(history: seq<string>) {
    |history| <= HISTORY_ENTRIES && forall i :: 0 <= i < |history| ==> history[i] != "" && Line(history[i])
  }

  /** The caller's buffer is no larger than a row of the history and has room for each line in it. */
  predicate Fits(history: seq<string>, size: nat) {
    0 < size <= MAX_LINE_LENGTH && forall i :: 0 <= i < |history| ==> |history[i]| < size
  }

  predicate Sound(e: Editor) {
    && Printable(e.left) && Printable(e.right) && |e.left| + |e.right| < e.size
    && Lines(e.history) && Fits(e.history, e.size) && e.index <= |e.history|
  }

  lemma SoundText(e: Editor)
    requires Sound(e)
    ensures Line(e.Text()) && |e.Text()| < e.size
  {
  }

  /** Whatever is typed, the line fits the buffer and holds no terminator. */
  lemma PressSound(e: Editor, key: Key)
    requires Sound(e)
    ensures Sound(Press(e, key)) && Press(e, key).history == e.history && Press(e, key).size == e.size
  {
    SoundText(e);
  }

  /** The editor after some keys other than ENTER. */
  ghost function PressAll(e: Editor, keys: seq<Key>): (r: Editor)
    requires Sound(e)
    ensures Sound(r) && r.history == e.history && r.size == e.size
    decreases |keys|
  {
    if keys == [] then e
    else
      var before := PressAll(e, keys[..|keys| - 1]);
      PressSound(before, keys[|keys| - 1]);
      Press(before, keys[|keys| - 1])
  }

  /** The keystrokes of a text. */
  function Keys(text: string): (r: seq<Key>) { seq(|text|, i requires 0 <= i < |text| => Key(0, text[i])) }

  /** Characters that are typed rather than obeyed. */
  predicate Ordinary(text: string) { NUL !in text && 8 as char !in text && 13 as char !in text }

  lemma TypeOne(e: Editor, c: char)
    requires Sound(e) && Ordinary([c])
    ensures Press(e, Key(0, c)) == if |e.Text()| < e.size - 1 then e.(left := e.left + [c]) else e
  {
    assert c == [c][0];
  }

  /** Typing a text puts it in front of the cursor, as far as there is room, and changes nothing else. */
  lemma {:induction false} TypingInserts(e: Editor, text: string)
    requires Sound(e) && Ordinary(text)
    ensures var room := e.size - 1 - |e.Text()|;
            PressAll(e, Keys(text)) == e.(left := e.left + if |text| <= room then text else text[..room])
    decreases |text|
  {
    if text == "" {
      assert e.left + text == e.left;
    } else {
      var n := |text| - 1;
      assert Keys(text)[..n] == Keys(text[..n]);
      assert text == text[..n] + [text[n]];
      assert Ordinary([text[n]]) && Keys(text)[n] == Key(0, text[n]);
      TypingInserts(e, text[..n]);
      TypeOne(PressAll(e, Keys(text[..n])), text[n]);
      hide Press;
      assert PressAll(e, Keys(text)) == Press(PressAll(e, Keys(text[..n])), Key(0, text[n]));
    }
  }

  const BACKSPACE := Key(0, 8 as char)
  const UP := Key(0x01, NUL)

  /** BACKSPACE keys take the text in front of the cursor back, character by character while there is one. */
  lemma {:induction false} BackspaceTakesBack(e: Editor, n: nat)
    requires Sound(e)
    ensures PressAll(e, seq(n, _ => BACKSPACE)) == e.(left := e.left[..|e.left| - Least(n, |e.left|)])
  {
    if n > 0 {
      assert seq(n, _ => BACKSPACE)[..n - 1] == seq(n - 1, _ => BACKSPACE);
      BackspaceTakesBack(e, n - 1);
    }
  }

  function Least(a: nat, b: nat): nat { if a <= b then a else b }

  /** UP keys, from any place in the history, show the line that lies so far back. */
  lemma {:induction false} UpShows(e: Editor, n: nat)
    requires Sound(e) && 0 < n <= e.index
    ensures PressAll(e, seq(n, _ => UP)) == e.(left := e.history[e.index - n], right := "", index := e.index - n)
  {
    assert seq(n, _ => UP)[..n - 1] == seq(n - 1, _ => UP);
    if n > 1 {
      UpShows(e, n - 1);
    }
  }

  /** The scan codes of the keys that are obeyed: the character that comes with them does not matter. Of any other
      key only the character counts, and none is none. */
  lemma WhatCounts(e: Editor, key: Key)
    requires e.index <= |e.history|
    ensures if key.scanCode in {0x01, 0x02, 0x03, 0x04, 0x05, 0x06, 0x08, 0x17} then
              Press(e, key) == Press(e, Key(key.scanCode, '\0'))
            else Press(e, key) == Press(e, Key(0, key.unicodeChar))
    ensures Press(e, Key(0, '\0')) == e
  {
  }

  /** Any keys of these do nothing at their end of the history. */
  lemma HistoryEnds(e: Editor, c: char)
    requires e.index <= |e.history|
    ensures e.index == 0 ==> Press(e, Key(0x01, c)) == e
    ensures e.index == |e.history| ==> Press(e, Key(0x02, c)) == e
  {
  }

  const DOWN := Key(0x02, NUL)
  const RIGHT := Key(0x03, NUL)
  const LEFT := Key(0x04, NUL)
  const DELETE := Key(0x08, NUL)

  /** DOWN keys, from any place in the history, show the line that lies so far on, and behind the last an empty one. */
  lemma {:induction false} DownShows(e: Editor, n: nat)
    requires Sound(e) && 0 < n <= |e.history| - e.index
    ensures var i := e.index + n;
            PressAll(e, seq(n, _ => Key(0x02, NUL)))
            == e.(left := if i < |e.history| then e.history[i] else "", right := "", index := i)
  {
    assert seq(n, _ => DOWN)[..n - 1] == seq(n - 1, _ => DOWN);
    if n > 1 {
      DownShows(e, n - 1);
    }
  }

  /** Of equal keys one is the last. */
  lemma PressLast(e: Editor, key: Key, n: nat)
    requires Sound(e) && n > 0
    ensures PressAll(e, seq(n, _ => key)) == Press(PressAll(e, seq(n - 1, _ => key)), key)
  {
    assert seq(n, _ => key)[..n - 1] == seq(n - 1, _ => key);
  }

  /** A line divided at a place: the cursor stands there. */
  function Divided(e: Editor, line: string, at: nat): Editor
    requires at <= |line|
  {
    e.(left := line[..at], right := line[at..])
  }

  lemma DividedWhereItIs(e: Editor)
    ensures Divided(e, e.Text(), |e.left|) == e
  {
  }

  lemma MoveOne(e: Editor, line: string, at: nat)
    requires at <= |line| && e.index <= |e.history|
    ensures Press(Divided(e, line, at), Key(0x04, NUL)) == Divided(e, line, if at == 0 then 0 else at - 1)
    ensures Press(Divided(e, line, at), Key(0x03, NUL)) == Divided(e, line, if at == |line| then at else at + 1)
  {
    assert at > 0 ==> line[..at][..at - 1] == line[..at - 1] && [line[at - 1]] + line[at..] == line[at - 1..];
    assert at < |line| ==> line[at..][1..] == line[at + 1..] && line[..at] + [line[at]] == line[..at + 1];
  }

  /** LEFT keys divide the same line so far to the left, but not before its beginning. */
  lemma {:induction false} LeftMoves(e: Editor, n: nat)
    requires Sound(e)
    ensures PressAll(e, seq(n, _ => Key(0x04, NUL))) == Divided(e, e.Text(), |e.left| - Least(n, |e.left|))
  {
    DividedWhereItIs(e);
    hide Press, Divided;
    if n > 0 {
      LeftMoves(e, n - 1);
      PressLast(e, LEFT, n);
      MoveOne(e, e.Text(), |e.left| - Least(n - 1, |e.left|));
    }
  }

  /** RIGHT keys divide it so far to the right, but not behind its end. */
  lemma {:induction false} RightMoves(e: Editor, n: nat)
    requires Sound(e)
    ensures PressAll(e, seq(n, _ => Key(0x03, NUL))) == Divided(e, e.Text(), |e.left| + Least(n, |e.right|))
  {
    DividedWhereItIs(e);
    hide Press, Divided;
    if n > 0 {
      RightMoves(e, n - 1);
      PressLast(e, RIGHT, n);
      MoveOne(e, e.Text(), |e.left| + Least(n - 1, |e.right|));
    }
  }

  /** As many RIGHT keys take back LEFT keys that do not reach the beginning. */
  lemma RightUndoesLeft(e: Editor, n: nat)
    requires Sound(e) && n <= |e.left|
    ensures PressAll(PressAll(e, seq(n, _ => Key(0x04, NUL))), seq(n, _ => Key(0x03, NUL))) == e
  {
    LeftMoves(e, n);
    var moved := PressAll(e, seq(n, _ => LEFT));
    hide PressAll, Press;
    assert moved.Text() == e.Text();
    RightMoves(moved, n);
    DividedWhereItIs(e);
  }

  lemma {:induction false} PressAllThen(e: Editor, keys: seq<Key>, more: seq<Key>)
    requires Sound(e)
    ensures PressAll(e, keys + more) == PressAll(PressAll(e, keys), more)
    decreases |more|
  {
    if more == [] {
      assert keys + more == keys;
    } else {
      assert (keys + more)[..|keys + more| - 1] == keys + more[..|more| - 1];
      PressAllThen(e, keys, more[..|more| - 1]);
    }
  }

  lemma Jumps(e: Editor)
    ensures e.index <= |e.history|
            ==> Press(e, Key(0x05, NUL)) == e.(left := "", right := e.Text())
                && Press(e, Key(0x06, NUL)) == e.(left := e.Text(), right := "")
  {
  }

  /** A text typed after HOME comes in front of the line. */
  lemma HomeInserts(e: Editor, text: string)
    requires Sound(e) && Ordinary(text) && |e.Text()| + |text| < e.size
    ensures PressAll(e, [Key(0x05, NUL)] + Keys(text)) == e.(left := text, right := e.Text())
  {
    hide Press, Keys;
    Jumps(e);
    TypedAfter(e, Key(0x05, NUL), text);
    hide PressAll;
    assert "" + text == text;
  }

  /** A text typed after END comes behind it. */
  lemma EndInserts(e: Editor, text: string)
    requires Sound(e) && Ordinary(text) && |e.Text()| + |text| < e.size
    ensures PressAll(e, [Key(0x06, NUL)] + Keys(text)) == e.(left := e.Text() + text, right := "")
  {
    hide Press, Keys;
    Jumps(e);
    TypedAfter(e, Key(0x06, NUL), text);
    hide PressAll;
    assert e.Text() + "" == e.Text();
  }

  lemma TypedAfter(e: Editor, key: Key, text: string)
    requires Sound(e) && Ordinary(text)
    ensures var now := Press(e, key);
            |now.Text()| + |text| < e.size ==> PressAll(e, [key] + Keys(text)) == now.(left := now.left + text)
  {
    PressSound(e, key);
    hide Press;
    PressAllThen(e, [key], Keys(text));
    assert [key][..0] == [];
    assert PressAll(e, [key]) == Press(e, key);
    TypingInserts(Press(e, key), text);
  }

  /** DELETE keys remove so many characters behind the cursor, one each while there is one. */
  lemma {:induction false} DeleteRemoves(e: Editor, n: nat)
    requires Sound(e)
    ensures PressAll(e, seq(n, _ => Key(0x08, NUL))) == e.(right := e.right[Least(n, |e.right|)..])
  {
    if n > 0 {
      assert seq(n, _ => DELETE)[..n - 1] == seq(n - 1, _ => DELETE);
      DeleteRemoves(e, n - 1);
    }
  }

  /** DELETE does what RIGHT and BACKSPACE do together. */
  lemma DeleteIsRightThenBackspace(e: Editor)
    requires Sound(e) && e.right != ""
    ensures PressAll(e, [Key(0x03, NUL), Key(0, 8 as char)]) == Press(e, Key(0x08, NUL))
  {
    PressTwo(e, RIGHT, BACKSPACE);
    assert Press(e, RIGHT) == e.(left := e.left + [e.right[0]], right := e.right[1..]);
    assert (e.left + [e.right[0]])[..|e.left|] == e.left;
  }

  lemma PressTwo(e: Editor, first: Key, second: Key)
    requires Sound(e)
    ensures PressAll(e, [first, second]) == Press(Press(e, first), second)
  {
    PressSound(e, first);
    hide Press;
    assert [first, second][..1] == [first] && [first][..0] == [];
    assert PressAll(e, [first]) == Press(e, first);
  }

  /** ESC, from any line and any place in the history, gives up both. */
  lemma EscapeGivesUp(e: Editor, c: char)
    requires Sound(e)
    ensures Press(e, Key(0x17, c)) == e.(left := "", right := "", index := |e.history|)
  {
  }

  // ---------------------------------------------------------------- the buffer

  /** Moves `n` characters inside the buffer; source and target may overlap. */
  method MoveMemory(buffer: array<char>, target: nat, source: nat, n: nat)
    requires target + n <= buffer.Length && source + n <= buffer.Length
    modifies buffer
    ensures buffer[..] == old(buffer[..target]) + old(buffer[source..source + n]) + old(buffer[target + n..])
  {
    ghost var was := buffer[..];
    if target <= source {
      for i := 0 to n
        invariant forall k :: 0 <= k < buffer.Length ==>
          buffer[k] == if target <= k < target + i then old(buffer[k - target + source]) else old(buffer[k])
      {
        buffer[target + i] := buffer[source + i];
      }
    } else {
      for i := n downto 0
        invariant forall k :: 0 <= k < buffer.Length ==>
          buffer[k] == if target + i <= k < target + n then old(buffer[k - target + source]) else old(buffer[k])
      {
        buffer[target + i] := buffer[source + i];
      }
    }
    MovedTo(was, buffer[..], target, source, n);
  }

  lemma MovedTo(was: string, now: string, target: nat, source: nat, n: nat)
    requires |now| == |was| && target + n <= |was| && source + n <= |was|
    requires forall k {:trigger now[k]} :: 0 <= k < |was| ==>
               now[k] == if target <= k < target + n then was[k - target + source] else was[k]
    ensures now == was[..target] + was[source..source + n] + was[target + n..]
  {
    var moved := was[..target] + was[source..source + n] + was[target + n..];
    forall k | 0 <= k < |was|
      ensures now[k] == moved[k]
    {
      if target <= k < target + n {
        assert moved[k] == was[source..source + n][k - target] == was[k - target + source];
      } else if k >= target + n {
        assert moved[k] == was[target + n..][k - target - n] == was[k];
      } else {
        assert moved[k] == was[..target][k] == was[k];
      }
    }
  }

  /** The buffer holds the editor's line, its terminator right behind it, with the cursor at the split. */
  ghost predicate Shows(buffer: array<char>, length: nat, cursor: nat, e: Editor)
    reads buffer
  {
    && buffer.Length == e.size && cursor <= length < e.size
    && buffer[..cursor] == e.left && buffer[cursor..length] == e.right && buffer[length] == NUL
  }

  lemma TwoParts(buffer: array<char>, cursor: nat, length: nat)
    requires cursor <= length <= buffer.Length
    ensures buffer[..length] == buffer[..cursor] + buffer[cursor..length]
  {
  }

  /** The same line, with the cursor elsewhere in it. */
  lemma CursorMoves(buffer: array<char>, length: nat, cursor: nat, e: Editor)
    requires Shows(buffer, length, cursor, e)
    ensures |e.left| == cursor && |e.left| + |e.right| == length
    ensures cursor < length ==>
              Shows(buffer, length, cursor + 1, e.(left := e.left + [e.right[0]], right := e.right[1..]))
    ensures cursor > 0 ==>
              var n := |e.left| - 1;
              Shows(buffer, length, cursor - 1, e.(left := e.left[..n], right := [e.left[n]] + e.right))
    ensures Shows(buffer, length, 0, e.(left := "", right := e.Text()))
    ensures Shows(buffer, length, length, e.(left := e.Text(), right := ""))
  {
    TwoParts(buffer, cursor, length);
    assert buffer[..0] == "" && buffer[0..length] == buffer[..length];
    assert cursor > 0 ==> buffer[..cursor] == buffer[..cursor - 1] + [buffer[cursor - 1]];
  }

  method DeleteAt(buffer: array<char>, length: nat, cursor: nat, ghost e: Editor) returns (length': nat)
    requires Shows(buffer, length, cursor, e) && cursor < length
    modifies buffer
    ensures Shows(buffer, length', cursor, e.(right := e.right[1..]))
  {
    MoveMemory(buffer, cursor, cursor + 1, length - cursor);
    length' := length - 1;
    assert buffer[length'] == buffer[..][length'];
    assert buffer[..cursor] == buffer[..][..cursor] && buffer[cursor..length'] == buffer[..][cursor..length'];
  }

  method DeleteBefore(buffer: array<char>, length: nat, cursor: nat, ghost e: Editor)
    returns (length': nat, cursor': nat)
    requires Shows(buffer, length, cursor, e) && cursor > 0
    modifies buffer
    ensures Shows(buffer, length', cursor', e.(left := e.left[..|e.left| - 1]))
  {
    MoveMemory(buffer, cursor - 1, cursor, length - cursor + 1);
    cursor', length' := cursor - 1, length - 1;
    assert buffer[length'] == buffer[..][length'];
    assert buffer[..cursor'] == buffer[..][..cursor'] && buffer[cursor'..length'] == buffer[..][cursor'..length'];
  }

  method InsertAt(buffer: array<char>, length: nat, cursor: nat, c: char, ghost e: Editor)
    returns (length': nat, cursor': nat)
    requires Shows(buffer, length, cursor, e) && length < e.size - 1
    modifies buffer
    ensures Shows(buffer, length', cursor', e.(left := e.left + [c]))
  {
    MoveMemory(buffer, cursor + 1, cursor, length - cursor + 1);
    ghost var moved := buffer[..];
    buffer[cursor] := c;
    cursor', length' := cursor + 1, length + 1;
    assert buffer[..] == moved[cursor := c];
    assert buffer[length'] == moved[length'];
    assert buffer[..cursor'] == buffer[..][..cursor'] && buffer[cursor'..length'] == buffer[..][cursor'..length'];
  }

  // ---------------------------------------------------------------- the history table

  /** Row `i` of the table holds the line and its terminator. */
  ghost predicate RowHolds(table: array2<char>, i: nat, line: string)
    requires i < table.Length0 && table.Length1 == MAX_LINE_LENGTH
    reads table
  {
    Line(line) && (forall k :: 0 <= k < |line| ==> table[i, k] == line[k]) && table[i, |line|] == NUL
  }

  class Shell {
    const history: array2<char>
    var historyCount: nat
    var historyIndex: nat
    ghost var lines: seq<string>

    ghost predicate Valid()
      reads this, history
    {
      && history.Length0 == HISTORY_ENTRIES && history.Length1 == MAX_LINE_LENGTH
      && Lines(lines) && historyCount == |lines|
      && forall i :: 0 <= i < |lines| ==> RowHolds(history, i, lines[i])
    }

    constructor ()
      ensures Valid() && lines == [] && fresh(history)
    {
      history := new char[HISTORY_ENTRIES, MAX_LINE_LENGTH];
      historyCount, historyIndex := 0, 0;
      lines := [];
    }

    /** WideStringLength of a history row. */
    method RowLength(i: nat) returns (length: nat)
      requires Valid() && i < historyCount
      ensures length == |lines[i]|
    {
      length := 0;
      assert RowHolds(history, i, lines[i]);
      while length < MAX_LINE_LENGTH - 1 && history[i, length] != NUL
        invariant length <= |lines[i]|
      {
        assert length < |lines[i]|;
        length := length + 1;
      }
    }

    /** A history entry takes the place of the line; the cursor goes behind it. */
    method Recall(buffer: array<char>, i: nat, ghost e: Editor) returns (length: nat)
      requires Valid() && i < historyCount && buffer.Length == e.size && |lines[i]| < e.size
      modifies buffer
      ensures Shows(buffer, length, length, e.Replaced(lines[i]))
    {
      length := RowLength(i);
      assert RowHolds(history, i, lines[i]);
      for k := 0 to length + 1
        invariant forall j :: 0 <= j < k ==> buffer[j] == history[i, j]
      {
        buffer[k] := history[i, k];
      }
      assert buffer[..length] == lines[i];
    }

    /** Copies the submitted line, with its terminator, into a row. */
    method StoreRow(buffer: array<char>, length: nat, i: nat, ghost line: string)
      requires i < history.Length0 && history.Length1 == MAX_LINE_LENGTH && length < buffer.Length
      requires Line(line) && length == |line| && buffer[..length] == line && buffer[length] == NUL
      modifies history
      ensures RowHolds(history, i, line)
      ensures forall j, k :: 0 <= j < history.Length0 && j != i && 0 <= k < MAX_LINE_LENGTH ==>
                history[j, k] == old(history[j, k])
    {
      for k := 0 to length + 1
        invariant forall c :: 0 <= c < k ==> history[i, c] == buffer[c]
        invariant forall j, c :: 0 <= j < history.Length0 && j != i && 0 <= c < MAX_LINE_LENGTH ==>
                    history[j, c] == old(history[j, c])
      {
        history[i, k] := buffer[k];
      }
      assert forall k :: 0 <= k < length ==> buffer[k] == buffer[..length][k];
    }

    /** The overlapping move that makes room in a full table. */
    method ShiftRows()
      requires history.Length0 == HISTORY_ENTRIES && history.Length1 == MAX_LINE_LENGTH
      modifies history
      ensures forall j, k :: 0 <= j < HISTORY_ENTRIES - 1 && 0 <= k < MAX_LINE_LENGTH ==>
                history[j, k] == old(history[j + 1, k])
    {
      for i := 0 to HISTORY_ENTRIES - 1
        invariant forall j, k :: 0 <= j < i && 0 <= k < MAX_LINE_LENGTH ==> history[j, k] == old(history[j + 1, k])
        invariant forall j, k :: i <= j < HISTORY_ENTRIES && 0 <= k < MAX_LINE_LENGTH ==>
                    history[j, k] == old(history[j, k])
      {
        for c := 0 to MAX_LINE_LENGTH
          invariant forall j, k :: 0 <= j < i && 0 <= k < MAX_LINE_LENGTH ==> history[j, k] == old(history[j + 1, k])
          invariant forall k :: 0 <= k < c ==> history[i, k] == old(history[i + 1, k])
          invariant forall j, k :: i < j < HISTORY_ENTRIES && 0 <= k < MAX_LINE_LENGTH ==>
                      history[j, k] == old(history[j, k])
        {
          history[i, c] := history[i + 1, c];
        }
      }
    }

    /** What ENTER does to the history. */
    method Remember(buffer: array<char>, length: nat, ghost line: string)
      requires Valid() && length < buffer.Length
      requires Line(line) && length == |line| && buffer[..length] == line && buffer[length] == NUL
      modifies this`historyCount, this`lines, history
      ensures Valid() && lines == Submit(old(lines), line)
    {
      if length > 0 {
        if historyCount < HISTORY_ENTRIES {
          StoreRow(buffer, length, historyCount, line);
          historyCount := historyCount + 1;
          lines := lines + [line];
          assert forall i :: 0 <= i < |lines| - 1 ==> RowHolds(history, i, lines[i]);
        } else {
          ShiftRows();
          ghost var kept := lines[1..];
          assert forall i :: 0 <= i < |kept| ==> RowHolds(history, i, kept[i]);
          label shifted:
          StoreRow(buffer, length, HISTORY_ENTRIES - 1, line);
          forall i | 0 <= i < |kept|
            ensures RowHolds(history, i, kept[i])
          {
            assert old@shifted(RowHolds(history, i, kept[i]));
          }
          lines := kept + [line];
        }
      }
    }

    /** The editor that the table and the two numbers stand for, around a given line. */
    ghost predicate Editing(buffer: array<char>, length: nat, cursor: nat, e: Editor)
      reads this, history, buffer
    {
      Valid() && e.history == lines && e.index == historyIndex && Shows(buffer, length, cursor, e)
    }

    /** An empty line, and the history from its end: at the start, and after ESC. */
    method Clear(buffer: array<char>)
      requires Valid() && buffer.Length > 0
      modifies this`historyIndex, buffer
      ensures Editing(buffer, 0, 0, Fresh(lines, buffer.Length))
    {
      buffer[0] := NUL;
      historyIndex := historyCount;
    }

    /** The keys that walk through the history. */
    method HistoryKey(buffer: array<char>, length: nat, cursor: nat, key: Key, ghost e: Editor)
      returns (length': nat, cursor': nat)
      requires Editing(buffer, length, cursor, e) && Sound(e) && key.scanCode in {0x01, 0x02}
      modifies this`historyIndex, buffer
      ensures Editing(buffer, length', cursor', Press(e, key))
    {
      length', cursor' := length, cursor;
      PressSound(e, key);
      if key.scanCode == 0x01 {
        if historyIndex > 0 {
          historyIndex := historyIndex - 1;
          length' := Recall(buffer, historyIndex, e.(index := e.index - 1));
          cursor' := length';
        }
      } else if historyIndex < historyCount {
        historyIndex := historyIndex + 1;
        if historyIndex == historyCount {
          buffer[0] := NUL;
          length', cursor' := 0, 0;
        } else {
          length' := Recall(buffer, historyIndex, e.(index := e.index + 1));
          cursor' := length';
        }
      }
    }

    /** The keys that move the cursor. */
    method CursorKey(buffer: array<char>, length: nat, cursor: nat, key: Key, ghost e: Editor) returns (cursor': nat)
      requires Editing(buffer, length, cursor, e) && Sound(e) && 0x03 <= key.scanCode <= 0x06
      ensures Editing(buffer, length, cursor', Press(e, key))
    {
      CursorMoves(buffer, length, cursor, e);
      hide Shows;
      cursor' := cursor;
      if key.scanCode == 0x03 {
        if cursor < length {
          cursor' := cursor + 1;
        }
      } else if key.scanCode == 0x04 {
        if cursor > 0 {
          cursor' := cursor - 1;
        }
      } else if key.scanCode == 0x05 {
        if cursor > 0 {
          cursor' := 0;
        }
      } else {
        if cursor < length {
          cursor' := length;
        }
      }
    }

    /** One key other than ENTER: the history keys come first, then the cursor keys, ESC, DELETE and BACKSPACE, and
        last a character. */
    method HandleKey(buffer: array<char>, length: nat, cursor: nat, key: Key, ghost e: Editor)
      returns (length': nat, cursor': nat)
      requires Editing(buffer, length, cursor, e) && Sound(e) && !IsEnter(key)
      modifies this`historyIndex, buffer
      ensures Editing(buffer, length', cursor', Press(e, key))
    {
      length', cursor' := length, cursor;
      PressSound(e, key);
      if key.scanCode == 0x01 || key.scanCode == 0x02 {
        length', cursor' := HistoryKey(buffer, length, cursor, key, e);
      } else if 0x03 <= key.scanCode <= 0x06 {
        cursor' := CursorKey(buffer, length, cursor, key, e);
      } else if key.scanCode == 0x17 {
        Clear(buffer);
        length', cursor' := 0, 0;
      } else if key.scanCode == 0x08 {
        if cursor < length {
          length' := DeleteAt(buffer, length, cursor, e);
        }
      } else if key.unicodeChar == 8 as char {
        if cursor > 0 {
          length', cursor' := DeleteBefore(buffer, length, cursor, e);
        }
      } else if key.unicodeChar != NUL && length < buffer.Length - 1 {
        length', cursor' := InsertAt(buffer, length, cursor, key.unicodeChar, e);
      }
    }

    /** ENTER: terminates the line and keeps it. */
    method Enter(buffer: array<char>, length: nat, cursor: nat, ghost e: Editor)
      requires Editing(buffer, length, cursor, e) && Sound(e)
      modifies this`historyCount, this`lines, buffer, history
      ensures Valid() && lines == Submit(old(lines), e.Text())
      ensures Line(e.Text()) && |e.Text()| < buffer.Length
      ensures buffer[..|e.Text()|] == e.Text() && buffer[|e.Text()|] == NUL
    {
      SoundText(e);
      buffer[length] := NUL;
      TwoParts(buffer, cursor, length);
      Remember(buffer, length, e.Text());
    }

    /** The loop of ReadCommand up to the first ENTER, or to the end of the keys. */
    method EditLine(buffer: array<char>, keys: seq<Key>) returns (length: nat, cursor: nat, used: nat)
      requires Valid() && Fits(lines, buffer.Length)
      modifies this`historyIndex, buffer
      ensures used <= |keys| && Editing(buffer, length, cursor, PressAll(Fresh(lines, buffer.Length), keys[..used]))
      ensures forall i :: 0 <= i < used ==> !IsEnter(keys[i])
      ensures used < |keys| ==> IsEnter(keys[used])
    {
      hide Press;
      length, cursor, used := 0, 0, 0;
      Clear(buffer);
      ghost var was, e := lines, Fresh(lines, buffer.Length);
      while used < |keys| && !IsEnter(keys[used])
        invariant used <= |keys| && lines == was && e == PressAll(Fresh(was, buffer.Length), keys[..used])
        invariant Editing(buffer, length, cursor, e)
        invariant forall i :: 0 <= i < used ==> !IsEnter(keys[i])
      {
        length, cursor := HandleKey(buffer, length, cursor, keys[used], e);
        e := Press(e, keys[used]);
        used := used + 1;
        assert keys[..used][..used - 1] == keys[..used - 1];
      }
    }

    /** ReadCommand on the keys that arrive: it ends at the first ENTER, if there is one. */
    method ReadCommand(buffer: array<char>, keys: seq<Key>) returns (submitted: bool, used: nat)
      requires Valid() && Fits(lines, buffer.Length)
      modifies this, buffer, history
      ensures Valid() && used <= |keys| && forall i :: 0 <= i < used ==> keys[i].unicodeChar != 13 as char
      ensures submitted <==> used < |keys|
      ensures if !submitted then lines == old(lines)
              else
                && keys[used].unicodeChar == 13 as char
                && var line := PressAll(Fresh(old(lines), buffer.Length), keys[..used]).Text();
                   && Line(line) && |line| < buffer.Length && buffer[..|line|] == line && buffer[|line|] == NUL
                   && lines == Submit(old(lines), line)
    {
      var length, cursor;
      length, cursor, used := EditLine(buffer, keys);
      submitted := used < |keys|;
      if submitted {
        Enter(buffer, length, cursor, PressAll(Fresh(lines, buffer.Length), keys[..used]));
      }
    }
  }

  // ---------------------------------------------------------------- the history over many calls

  ghost function NonEmpty(ls: seq<string>): seq<string> {
    if ls == [] then []
    else NonEmpty(ls[..|ls| - 1]) + if ls[|ls| - 1] == "" then [] else [ls[|ls| - 1]]
  }

  ghost function Last<T>(s: seq<T>, n: nat): seq<T> {
    if |s| <= n then s else s[|s| - n..]
  }

  lemma SubmitToLast(all: seq<string>, line: string)
    requires line != ""
    ensures Submit(Last(all, HISTORY_ENTRIES), line) == Last(all + [line], HISTORY_ENTRIES)
  {
  }

  /** One more line keeps the history at the last twenty of all lines that are not empty. */
  lemma SubmitIsLast(before: seq<string>, ls: seq<string>, line: string)
    ensures Submit(Last(before + NonEmpty(ls), 20), line) == Last(before + NonEmpty(ls + [line]), 20)
  {
    assert (ls + [line])[..|ls|] == ls;
    var all := before + NonEmpty(ls);
    if line != "" {
      assert before + NonEmpty(ls + [line]) == all + [line];
      SubmitToLast(all, line);
    } else {
      assert before + NonEmpty(ls + [line]) == all;
    }
  }

  lemma SubmitKeepsLines(history: seq<string>, line: string)
    requires Lines(history) && Line(line)
    ensures Lines(Submit(history, line)) && Fits(Submit(history, line), MAX_LINE_LENGTH)
  {
  }
}
