/** The string helpers `Substr` and `GetBetweenStr`. Strings are sequences
    of characters and positions count characters; every asserted input is
    ASCII, where counting characters and counting bytes agree. */
module Strings {

  function Min(a: int, b: int): int { if a <= b then a else b }

  function Max(a: int, b: int): int { if a <= b then b else a }

  function Abs(x: int): int { if x < 0 then -x else x }

  /** `x` clipped into the interval [0, n]. */
  function Clip(x: int, n: nat): (r: nat)
    ensures r <= n
    ensures 0 <= x <= n ==> r == x
  {
    if x < 0 then 0 else if x > n then n else x
  }

  // ---------------------------------------------------------------------
  // Substr
  // ---------------------------------------------------------------------

  /** The start position after resolving a negative start, which counts
      back from the end of the string. */
  function ResolvedStart(s: string, start: int): int
  {
    if start < 0 then |s| + start else start
  }

  /** The substring of `s` from `start` spanning `length` characters. A
      negative start counts from the end; a negative length takes the
      characters before the start instead of after it; both ends are clipped
      to the string, so no input is out of range. */
  function Substr(s: string, start: int, length: int): (r: string)
    ensures |r| <= |s| && |r| <= Abs(length)
    ensures length == 0 ==> r == []
  {
    var from := ResolvedStart(s, start);
    var to := from + length;
    var lo, hi := Min(from, to), Max(from, to);
    s[Clip(lo, |s|)..Clip(hi, |s|)]
  }

  /** Length 0 yields the empty string whatever the start. */
  lemma SubstrZeroLength(s: string, start: int)
    ensures Substr(s, start, 0) == []
  {
  }

  /** From an in-range start, a non-negative length takes that many
      characters, clipped at the end of the string. */
  lemma SubstrForward(s: string, start: int, length: int)
    requires 0 <= start <= |s| && 0 <= length
    ensures Substr(s, start, length) == s[start..Min(start + length, |s|)]
    ensures start + length <= |s| ==> |Substr(s, start, length)| == length
  {
  }

  /** A negative start within the string counts back from its end. */
  lemma SubstrNegativeStart(s: string, start: int, length: int)
    requires -|s| <= start < 0
    ensures Substr(s, start, length) == Substr(s, |s| + start, length)
  {
  }

  /** A negative length takes the |length| characters just before the
      resolved start, clipped at the beginning of the string. */
  lemma SubstrBackward(s: string, start: int, length: int)
    requires 0 <= ResolvedStart(s, start) <= |s| && length < 0
    ensures var from := ResolvedStart(s, start);
            Substr(s, start, length) == s[Max(0, from + length)..from]
  {
  }

  /** Taking n characters backwards from a position is taking n characters
      forwards from n positions earlier. */
  lemma SubstrBackwardIsForward(s: string, start: int, n: int)
    requires 0 <= n <= start
    ensures Substr(s, start, -n) == Substr(s, start - n, n)
  {
  }

  /** A start at or past the end, with a non-negative length, yields the
      empty string. */
  lemma SubstrPastEnd(s: string, start: int, length: int)
    requires start >= |s| && length >= 0
    ensures Substr(s, start, length) == []
  {
  }

  /** A start before the beginning, with a span that does not reach back
      into the string, yields the empty string. */
  lemma SubstrBeforeBeginning(s: string, start: int, length: int)
    requires start < -|s| && |s| + start + length <= 0
    ensures Substr(s, start, length) == []
  {
  }

  /** A start outside the string whose span reaches back into it is
      clipped, not discarded. */
  lemma SubstrClipsOutsideStart()
    ensures Substr("abc", -5, 4) == "ab"
    ensures Substr("abc", 5, -4) == "bc"
  {
    var s := "abc";
    assert s[0..2] == "ab" && s[1..3] == "bc";
  }

  /** The asserted cases of the helper's table. */
  lemma SubstrCases()
    ensures Substr("aaaadfddweeacrttsdf", -1, 0) == ""
    ensures Substr("aaaalfbkweeacrttsdf", 0, 1) == "a"
    ensures Substr("aaaalfbkweeacrttsdf", -1, 1) == "f"
    ensures Substr("aaaalfbkweeacrttsdf", -1, 2) == "f"
    ensures Substr("aaaalfbkweeacrttsdf", -2, 3) == "df"
    ensures Substr("aaaalfbkweeacrttsdf", -2000, 3) == ""
    ensures Substr("aaaalfbkweeacrttsdf", -2, -3) == "tts"
    ensures Substr("aaaalfbkweeacrttsdf", -2, -100) == "aaaalfbkweeacrtts"
    ensures Substr("aaaalfbkweeacrttsdf", -1, -100) == "aaaalfbkweeacrttsd"
    ensures Substr("aaaadfddweeacrttsdf", 1000, 11111) == ""
    ensures Substr("aaaadfddweeacrttsdf", 4, 0) == ""
    ensures Substr("aaaadfddweeacrttsdf", 4, 10000) == "dfddweeacrttsdf"
    ensures Substr("aaaadfddweeacrttsdf", 4, 6) == "dfddwe"
  {
    var s := "aaaadfddweeacrttsdf";
    assert s[4..19] == "dfddweeacrttsdf";
  }

  // ---------------------------------------------------------------------
  // GetBetweenStr
  // ---------------------------------------------------------------------

  /** `sub` occurs in `s` starting at position `j`. */
  predicate OccursAt(s: string, sub: string, j: int)
  {
    0 <= j && j + |sub| <= |s| && s[j..j + |sub|] == sub
  }

  /** The position of the first occurrence of `sub` in `s`, or -1 when
      there is none; the empty string occurs at 0. */
  function Index(s: string, sub: string): (r: int)
    ensures -1 <= r <= |s|
    ensures r >= 0 ==> OccursAt(s, sub, r)
    ensures forall j :: 0 <= j && (r == -1 || j < r) ==> !OccursAt(s, sub, j)
    decreases |s|
  {
    if |s| < |sub| then -1
    else if s[..|sub|] == sub then 0
    else
      var k := Index(s[1..], sub);
      OccursShift(s, sub, 1);
      assert s[..|sub|] == s[0..|sub|];
      if k == -1 then -1 else k + 1
  }

  /** Occurrences in a suffix are occurrences in the whole string, shifted. */
  lemma OccursShift(s: string, sub: string, n: nat)
    requires n <= |s|
    ensures forall j :: n <= j ==> (OccursAt(s, sub, j) <==> OccursAt(s[n..], sub, j - n))
  {
  }

  /** A position where `sub` occurs, with no earlier occurrence, is the one
      Index finds. */
  lemma IndexIs(s: string, sub: string, i: int)
    requires OccursAt(s, sub, i)
    requires forall j :: 0 <= j < i ==> !OccursAt(s, sub, j)
    ensures Index(s, sub) == i
  {
  }

  /** Where the extracted text begins: the first occurrence of the start
      marker, or the beginning of the string when it does not occur. */
  function MarkerStart(s: string, start: string): (n: nat)
    ensures n <= |s|
    ensures Index(s, start) >= 0 ==> OccursAt(s, start, n)
    ensures forall j :: 0 <= j < n ==> !OccursAt(s, start, j)
    ensures Index(s, start) == -1 ==> n == 0
  {
    var k := Index(s, start);
    if k == -1 then 0 else k
  }

  /** The text from the first occurrence of `start` up to, but excluding,
      the first occurrence of `end` at or after that position; the search for
      `end` includes the start position itself. Without an `end`, the text
      runs to the end of the string. */
  function GetBetweenStr(s: string, start: string, end: string): (r: string)
    ensures var n := MarkerStart(s, start);
            n + |r| <= |s| && r == s[n..n + |r|] &&
            (forall j :: n <= j < n + |r| ==> !OccursAt(s, end, j)) &&
            (n + |r| == |s| || OccursAt(s, end, n + |r|))
  {
    var n := MarkerStart(s, start);
    var rest := s[n..];
    var m := Index(rest, end);
    OccursShift(s, end, n);
    var len := if m == -1 then |rest| else m;
    rest[..len]
  }

  /** When the end marker is the start marker and it occurs, the result is
      empty: the search for the end finds the start marker itself. */
  lemma GetBetweenSameMarker(s: string, marker: string)
    requires Index(s, marker) >= 0
    ensures GetBetweenStr(s, marker, marker) == []
  {
  }

  /** The extracted text is exactly the stretch from the start marker that
      stops at the first end marker: no other string has the characterising
      properties of GetBetweenStr's result. */
  lemma GetBetweenStrUnique(s: string, start: string, end: string, r: string)
    requires var n := MarkerStart(s, start);
             n + |r| <= |s| && r == s[n..n + |r|] &&
             (forall j :: n <= j < n + |r| ==> !OccursAt(s, end, j)) &&
             (n + |r| == |s| || OccursAt(s, end, n + |r|))
    ensures r == GetBetweenStr(s, start, end)
  {
  }

  /** For a one-character marker, Index finds the first position holding
      that character. */
  lemma FirstChar(s: string, c: char, i: nat)
    requires i < |s| && s[i] == c && forall j :: 0 <= j < i ==> s[j] != c
    ensures Index(s, [c]) == i
  {
    forall j | 0 <= j <= i
      ensures OccursAt(s, [c], j) <==> j == i
    {
      assert j + 1 <= |s| ==> s[j..j + 1] == [s[j]];
    }
    IndexIs(s, [c], i);
  }

  /** With one-character markers, the result runs from the first `a` up
      to the first `b` at or after it. */
  lemma GetBetweenChars(s: string, a: char, b: char, n: nat, m: nat)
    requires n <= m < |s| && s[n] == a && s[m] == b
    requires forall j :: 0 <= j < n ==> s[j] != a
    requires forall j :: n <= j < m ==> s[j] != b
    ensures GetBetweenStr(s, [a], [b]) == s[n..m]
  {
    FirstChar(s, a, n);
    FirstChar(s[n..], b, m - n);
  }

  /** The asserted cases of the helper's table, one lemma per call. The
      input string is a parameter fixed by the precondition rather than a
      local literal: on a literal argument the verifier unfolds the recursive
      marker search character by character, which costs far more than the
      proof through GetBetweenChars. */
  lemma GetBetweenStrCaseAR(s: string)
    requires s == "aaaadfddweeacrttsdf"
    ensures GetBetweenStr(s, "a", "r") == "aaaadfddweeac"
  {
    GetBetweenChars(s, 'a', 'r', 0, 13);
  }

  lemma GetBetweenStrCaseDD(s: string)
    requires s == "aaaadfddweeacrttsdf"
    ensures GetBetweenStr(s, "d", "d") == ""
  {
    GetBetweenChars(s, 'd', 'd', 4, 4);
  }

  lemma GetBetweenStrCaseFT(s: string)
    requires s == "aaaadfddweeacrttsdf"
    ensures GetBetweenStr(s, "f", "t") == "fddweeacr"
  {
    GetBetweenChars(s, 'f', 't', 5, 14);
    CaseFTSlice(s);
  }

  /** The text between the markers of the last case, isolated from the
      facts about GetBetweenStr so that the comparison stays small. */
  lemma CaseFTSlice(s: string)
    requires s == "aaaadfddweeacrttsdf"
    ensures s[5..14] == "fddweeacr"
  {
  }
}
