/** The JavaScript string built-ins the extension relies on: the `\s` character class and
    `trim()`, `split(sep)`, `indexOf(needle)`, and `substr(0, n)` / `substring(0, n)`. */
module JsString {

  /** JavaScript's WhiteSpace and LineTerminator code points: what `\s` matches and what
      `trim()` removes. */
  predicate IsSpace(c: char)
  {
    c == '\t' || c == '\n' || c == '\U{000B}' || c == '\U{000C}' || c == '\r' || c == ' '
    || c == '\U{00A0}' || c == '\U{1680}' || ('\U{2000}' <= c <= '\U{200A}')
    || c == '\U{2028}' || c == '\U{2029}' || c == '\U{202F}' || c == '\U{205F}'
    || c == '\U{3000}' || c == '\U{FEFF}'
  }

  /** The code points after which `^` and before which `$` match in a multiline regular
      expression, and which `.` does not match. */
  predicate IsLineTerminator(c: char)
  {
    c == '\n' || c == '\r' || c == '\U{2028}' || c == '\U{2029}'
  }

  /** Number of white-space characters at the front of `s`. */
  function LeadingSpace(s: string): (k: nat)
    ensures k <= |s|
    ensures forall i :: 0 <= i < k ==> IsSpace(s[i])
    ensures k < |s| ==> !IsSpace(s[k])
  {
    if s == [] || !IsSpace(s[0]) then 0 else 1 + LeadingSpace(s[1..])
  }

  /** Number of white-space characters at the back of `s`. */
  function TrailingSpace(s: string): (k: nat)
    ensures k <= |s|
    ensures forall i :: |s| - k <= i < |s| ==> IsSpace(s[i])
    ensures k < |s| ==> !IsSpace(s[|s| - 1 - k])
  {
    if s == [] || !IsSpace(s[|s| - 1]) then 0 else 1 + TrailingSpace(s[..|s| - 1])
  }

  /** `s.trim()`: the part of `s` left once its leading and trailing white space is gone. */
  function Trim(s: string): (r: string)
    ensures LeadingSpace(s) + |r| <= |s|
  {
    var rest := s[LeadingSpace(s)..];
    rest[..|rest| - TrailingSpace(rest)]
  }

  /** `trim()` keeps a contiguous part of `s`, starting after its leading white space. */
  lemma TrimIsSlice(s: string)
    ensures Trim(s) == s[LeadingSpace(s)..LeadingSpace(s) + |Trim(s)|]
  {
    var k := LeadingSpace(s);
    var rest := s[k..];
    assert Trim(s) == rest[..|rest| - TrailingSpace(rest)];
  }

  /** What `trim()` removes is white space and nothing else: every character before and after
      the result is white space, and the result neither starts nor ends with any. */
  lemma TrimRemovesOnlySpace(s: string)
    ensures var k, r := LeadingSpace(s), Trim(s);
      && r == s[k..k + |r|]
      && (r != [] ==> !IsSpace(r[0]) && !IsSpace(r[|r| - 1]))
      && (forall i :: 0 <= i < k ==> IsSpace(s[i]))
      && (forall i :: k + |r| <= i < |s| ==> IsSpace(s[i]))
  {
    TrimIsSlice(s);
    TrimEndsAreSpace(s);
  }

  /** The characters after the result are white space, and the result neither starts nor
      ends with white space. */
  lemma TrimEndsAreSpace(s: string)
    ensures var k, r := LeadingSpace(s), Trim(s);
      && (r != [] ==> !IsSpace(r[0]) && !IsSpace(r[|r| - 1]))
      && (forall i :: k + |r| <= i < |s| ==> IsSpace(s[i]))
  {
    var k := LeadingSpace(s);
    var rest := s[k..];
    var n := TrailingSpace(rest);
    var r := rest[..|rest| - n];
    assert Trim(s) == r;
    forall i | k + |r| <= i < |s| ensures IsSpace(s[i]) {
      assert s[i] == rest[i - k];
    }
    if r != [] {
      assert r[0] == s[k];
      assert r[|r| - 1] == rest[|rest| - 1 - n];
    }
  }

  /** A string that ends in white space loses at least that last character to `trim()`. */
  lemma TrimDropsTrailingSpace(s: string)
    requires s != [] && IsSpace(s[|s| - 1])
    ensures Trim(s) != [] ==> LeadingSpace(s) + |Trim(s)| < |s|
  {
  }

  /** Position of the first `c` in `s`, or `|s|` when there is none. */
  function IndexOfChar(s: string, c: char): (k: nat)
    ensures k <= |s|
    ensures k < |s| ==> s[k] == c
    ensures c !in s[..k]
  {
    if s == [] then 0
    else if s[0] == c then 0
    else
      var k := 1 + IndexOfChar(s[1..], c);
      assert s[..k] == [s[0]] + s[1..][..k - 1];
      k
  }

  /** `s.split(sep)` for a one-character separator: the pieces between consecutive
      separators, so that there is always one piece more than there are separators. */
  function Split(s: string, sep: char): (parts: seq<string>)
    ensures |parts| >= 1
    decreases |s|
  {
    var k := IndexOfChar(s, sep);
    if k == |s| then [s] else [s[..k]] + Split(s[k + 1..], sep)
  }

  /** No piece of `Split(s, sep)` holds the separator. */
  lemma {:induction false} SplitPiecesLackSeparator(s: string, sep: char)
    ensures forall i :: 0 <= i < |Split(s, sep)| ==> sep !in Split(s, sep)[i]
    decreases |s|
  {
    var k := IndexOfChar(s, sep);
    if k < |s| {
      SplitPiecesLackSeparator(s[k + 1..], sep);
      assert Split(s, sep)[1..] == Split(s[k + 1..], sep);
    }
  }

  /** `parts.join(sep)`: the inverse of `Split`. */
  function JoinWith(parts: seq<string>, sep: char): string
    decreases |parts|
  {
    if parts == [] then []
    else if |parts| == 1 then parts[0]
    else parts[0] + [sep] + JoinWith(parts[1..], sep)
  }

  /** Splitting and re-joining gives the string back. */
  lemma {:induction false} SplitJoin(s: string, sep: char)
    ensures JoinWith(Split(s, sep), sep) == s
    decreases |s|
  {
    var k := IndexOfChar(s, sep);
    if k < |s| {
      var rest := Split(s[k + 1..], sep);
      SplitJoin(s[k + 1..], sep);
      var parts := Split(s, sep);
      assert parts == [s[..k]] + rest;
      assert parts[0] == s[..k] && parts[1..] == rest;
      assert JoinWith(parts, sep) == s[..k] + [sep] + JoinWith(rest, sep);
      SplitAround(s, k);
    }
  }

  /** Cutting `s` around position `k`. */
  lemma SplitAround(s: string, k: nat)
    requires k < |s|
    ensures s == s[..k] + [s[k]] + s[k + 1..]
  {
  }

  /** `t` is the text of `s` after its last `sep` (all of `s` when it has no `sep`). */
  predicate IsTextAfterLast(s: string, t: string, sep: char)
  {
    |t| <= |s| && t == s[|s| - |t|..] && sep !in t
    && (|t| == |s| || s[|s| - |t| - 1] == sep)
  }

  /** The last piece of `Split(s, sep)` is exactly the text after the last `sep` (all of
      `s` when there is no `sep`). */
  lemma {:induction false} SplitLast(s: string, sep: char)
    ensures IsTextAfterLast(s, Split(s, sep)[|Split(s, sep)| - 1], sep)
    decreases |s|
  {
    var k := IndexOfChar(s, sep);
    if k < |s| {
      var tail := s[k + 1..];
      SplitLast(tail, sep);
      var rest := Split(tail, sep);
      SplitStep(s, sep, k);
      LastOfCons(s[..k], rest);
      TextAfterLastOfTail(s, k, rest[|rest| - 1], sep);
    }
  }

  /** One step of `Split`: the piece before the first separator, then the rest split. */
  lemma SplitStep(s: string, sep: char, k: nat)
    requires k == IndexOfChar(s, sep) && k < |s|
    ensures Split(s, sep) == [s[..k]] + Split(s[k + 1..], sep)
  {
  }

  /** Putting an element in front keeps the last one. */
  lemma LastOfCons(x: string, r: seq<string>)
    requires |r| >= 1
    ensures ([x] + r)[|[x] + r| - 1] == r[|r| - 1]
  {
  }

  /** The text after the last `sep` of `s[k + 1..]`, where `s[k]` is a `sep`, is the text
      after the last `sep` of `s`. */
  lemma TextAfterLastOfTail(s: string, k: nat, t: string, sep: char)
    requires k < |s| && s[k] == sep && IsTextAfterLast(s[k + 1..], t, sep)
    ensures IsTextAfterLast(s, t, sep)
  {
    var tail := s[k + 1..];
    assert s[|s| - |t|..] == tail[|tail| - |t|..];
    if |t| < |tail| {
      assert s[|s| - |t| - 1] == tail[|tail| - |t| - 1];
    }
  }

  /** `needle` occurs in `hay` at position `j`. */
  predicate OccursAt(hay: string, needle: string, j: int)
  {
    0 <= j && j + |needle| <= |hay| && hay[j..j + |needle|] == needle
  }

  function IndexOfFrom(hay: string, needle: string, from: nat): (r: int)
    ensures r == -1 || (from <= r && r + |needle| <= |hay|)
    decreases |hay| + 1 - from
  {
    if from + |needle| > |hay| then -1
    else if hay[from..from + |needle|] == needle then from
    else IndexOfFrom(hay, needle, from + 1)
  }

  /** The search from `from` stops at the first occurrence at or after `from`. */
  lemma {:induction false} IndexOfFromIsFirst(hay: string, needle: string, from: nat)
    ensures var r := IndexOfFrom(hay, needle, from);
      && (r == -1 ==> forall j :: from <= j ==> !OccursAt(hay, needle, j))
      && (r != -1 ==> OccursAt(hay, needle, r) && forall j :: from <= j < r ==> !OccursAt(hay, needle, j))
    decreases |hay| + 1 - from
  {
    if from + |needle| <= |hay| && hay[from..from + |needle|] != needle {
      IndexOfFromIsFirst(hay, needle, from + 1);
    }
  }

  /** `hay.indexOf(needle)`: the first position where `needle` occurs, or -1. */
  function IndexOf(hay: string, needle: string): (r: int)
    ensures r == -1 || (0 <= r && r + |needle| <= |hay|)
  {
    IndexOfFrom(hay, needle, 0)
  }

  /** `indexOf` is -1 exactly when `needle` occurs nowhere, and otherwise the first position
      where it occurs. */
  lemma IndexOfIsFirstOccurrence(hay: string, needle: string)
    ensures var r := IndexOf(hay, needle);
      && (r == -1 <==> forall j :: !OccursAt(hay, needle, j))
      && (r != -1 ==> OccursAt(hay, needle, r) && forall j :: 0 <= j < r ==> !OccursAt(hay, needle, j))
  {
    IndexOfFromIsFirst(hay, needle, 0);
  }

  /** `s.substr(0, n)` and `s.substring(0, n)` for a count `n`: the first `n` characters,
      or all of `s` when it is shorter. */
  function Prefix(s: string, n: nat): (r: string)
    ensures |r| == if n <= |s| then n else |s|
    ensures r == s[..|r|]
  {
    if n <= |s| then s[..n] else s
  }

  /** A slice of a slice is a slice of the original. */
  lemma SliceOfSlice(s: string, a: nat, b: nat, k: nat, n: nat)
    requires a + k + n <= b <= |s|
    ensures s[a..b][k..k + n] == s[a + k..a + k + n]
  {
    var x, y := s[a..b][k..k + n], s[a + k..a + k + n];
    forall i | 0 <= i < n ensures x[i] == y[i] {
    }
  }

  /** A tail of `whole` that ends in white space, once trimmed, is found by
      `whole.indexOf` no later than where it sits, and the occurrence found leaves room for at
      least one more character after it. */
  lemma IndexOfTrimmedTail(whole: string, j: nat)
    requires j < |whole| && IsSpace(whole[|whole| - 1])
    ensures var t := Trim(whole[j..]); var idx := IndexOf(whole, t);
      0 <= idx <= j + LeadingSpace(whole[j..]) && idx + |t| + 1 <= |whole|
  {
    var block := whole[j..];
    var t := Trim(block);
    var k := LeadingSpace(block);
    TrimRemovesOnlySpace(block);
    TrimDropsTrailingSpace(block);
    var off := if t == [] then 0 else j + k;
    if t != [] {
      assert block == whole[j..|whole|];
      SliceOfSlice(whole, j, |whole|, k, |t|);
    }
    assert OccursAt(whole, t, off);
    IndexOfIsFirstOccurrence(whole, t);
  }

  /** `s.endsWith(suffix)`. */
  predicate EndsWith(s: string, suffix: string)
  {
    |suffix| <= |s| && s[|s| - |suffix|..] == suffix
  }
}
