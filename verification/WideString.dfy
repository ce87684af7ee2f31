/** Comparing text without regard to the case of letters, as the loader and the kernel do. */
module WideString {
  function FoldChar(c: char): char {
    if 'A' <= c <= 'Z' then c - 'A' + 'a' else c
  }

  /** Characters agree if they are equal or one letter of the alphabet in both cases, and only then. */
  lemma FoldAgrees(a: char, b: char)
    ensures FoldChar(a) == FoldChar(b) <==>
            || a == b
            || (65 <= a as int <= 90 && b as int == a as int + 32)
            || (65 <= b as int <= 90 && a as int == b as int + 32)
  {
  }

  function Fold(s: string): (r: string)
    ensures |r| == |s| && forall i :: 0 <= i < |s| ==> r[i] == FoldChar(s[i])
  {
    if s == "" then "" else [FoldChar(s[0])] + Fold(s[1..])
  }

  /** `name` is found in `s` at `at`. */
  predicate MatchesAt(s: string, name: string, at: nat) {
    at + |name| <= |s| && forall k :: 0 <= k < |name| ==> FoldChar(s[at + k]) == FoldChar(name[k])
  }

  predicate Same(a: string, b: string) {
    |a| == |b| && MatchesAt(a, b, 0)
  }

  /** The texts agree as far as the shorter one goes. */
  predicate Alike(a: string, b: string) {
    forall k :: 0 <= k < |a| && k < |b| ==> FoldChar(a[k]) == FoldChar(b[k])
  }

  /** How many characters a comparison with a limit looks at: none behind the end of either text, and 0 is no
      limit. */
  function Compared(a: string, b: string, limit: nat): (n: nat)
    ensures n <= |a| && n <= |b|
  {
    var shorter := if |a| < |b| then |a| else |b|;
    if 0 < limit < shorter then limit else shorter
  }

  /** Texts are the same if they are equal once folded, and alike if one folded text begins with the other. */
  lemma ComparedFolded(a: string, b: string)
    ensures Same(a, b) <==> Fold(a) == Fold(b)
    ensures Alike(a, b) <==> Fold(a) <= Fold(b) || Fold(b) <= Fold(a)
  {
    if Same(a, b) {
      assert forall k :: 0 <= k < |a| ==> FoldChar(a[0 + k]) == FoldChar(b[k]);
    }
    if Fold(a) == Fold(b) {
      assert forall k :: 0 <= k < |b| ==> Fold(a)[k] == Fold(b)[k] == FoldChar(a[0 + k]);
    }
    if Fold(a) <= Fold(b) || Fold(b) <= Fold(a) {
      forall k | 0 <= k < |a| && k < |b|
        ensures FoldChar(a[k]) == FoldChar(b[k])
      {
        assert Fold(a)[k] == Fold(b)[k];
      }
    }
  }

  /** The first characters that do not agree stand at `k`, and that of the first text is the greater or the lesser. */
  predicate DivergeAt(a: string, b: string, k: nat, greater: bool) {
    && k < |a| && k < |b| && (forall j :: 0 <= j < k ==> FoldChar(a[j]) == FoldChar(b[j]))
    && if greater then FoldChar(a[k]) > FoldChar(b[k]) else FoldChar(a[k]) < FoldChar(b[k])
  }

  /** Under a limit that neither text falls short of, agreement as far as compared is that of the beginnings. */
  lemma ComparedUnderLimit(a: string, b: string, limit: nat)
    requires 0 < limit <= |a| && limit <= |b|
    ensures (forall k :: 0 <= k < Compared(a, b, limit) ==> FoldChar(a[k]) == FoldChar(b[k])) <==>
            Fold(a[..limit]) == Fold(b[..limit])
  {
    if Fold(a[..limit]) == Fold(b[..limit]) {
      forall k | 0 <= k < limit
        ensures FoldChar(a[k]) == FoldChar(b[k])
      {
        assert Fold(a[..limit])[k] == Fold(b[..limit])[k];
      }
    }
  }

  /** CompareWideStringInsensitive: 0 if no difference is found before one of the texts, or the limit, ends. */
  method CompareWideStringInsensitive(string1: string, string2: string, length: nat) returns (r: int)
    ensures r == 0 <==>
            forall k :: 0 <= k < Compared(string1, string2, length) ==> FoldChar(string1[k]) == FoldChar(string2[k])
    ensures r > 0 ==>
              exists k :: 0 <= k < Compared(string1, string2, length) && DivergeAt(string1, string2, k, true)
    ensures r < 0 ==>
              exists k :: 0 <= k < Compared(string1, string2, length) && DivergeAt(string1, string2, k, false)
    ensures length == 0 || length >= |string1| || length >= |string2| ==> (r == 0 <==> Alike(string1, string2))
  {
    var index := 0;
    while index < |string1| && index < |string2|
      invariant index <= Compared(string1, string2, length)
      invariant forall k :: 0 <= k < index ==> FoldChar(string1[k]) == FoldChar(string2[k])
    {
      if index != 0 && index == length {
        break;
      }
      var character1, character2 := FoldChar(string1[index]), FoldChar(string2[index]);
      if character1 != character2 {
        assert DivergeAt(string1, string2, index, character1 > character2);
        return if character1 > character2 then 1 else -1;
      }
      index := index + 1;
    }
    r := 0;
  }

  /** Agreement passes through a text in the middle that is at least as long as one at an end. */
  lemma AlikeThrough(a: string, b: string, c: string)
    requires Alike(a, b) && Alike(b, c) && (|b| >= |a| || |b| >= |c|)
    ensures Alike(a, c)
  {
  }

  lemma NotThroughShorter(a: string, b: string, c: string)
    requires Alike(a, b) && Alike(b, c) && !Alike(a, c)
    ensures |b| < |a| && |b| < |c|
  {
    var k :| 0 <= k < |a| && k < |c| && FoldChar(a[k]) != FoldChar(c[k]);
    assert k >= |b|;
  }
}
