/**
 * The JavaScript string operations the pipeline relies on: `indexOf`,
 * `split`, `join`, `trim`, `toLowerCase` and the regular-expression
 * character classes `\s` and `.`.
 */
module Text {
  import opened Wrappers

  /** `sep` occurs in `s` starting at index `i`. */
  predicate OccursAt(s: string, sep: string, i: nat) {
    i + |sep| <= |s| && s[i..i + |sep|] == sep
  }

  ghost predicate Contains(s: string, sep: string) {
    exists i: nat :: OccursAt(s, sep, i)
  }

  predicate StartsWith(s: string, prefix: string) {
    |prefix| <= |s| && s[..|prefix|] == prefix
  }

  lemma OccursShift(s: string, sep: string, k: nat)
    requires |s| > 0
    ensures OccursAt(s, sep, k + 1) == OccursAt(s[1..], sep, k)
  {
    if k + 1 + |sep| <= |s| {
      assert s[k + 1..k + 1 + |sep|] == s[1..][k..k + |sep|];
    }
  }

  /** Index of the leftmost occurrence of a non-empty `sep` in `s`. */
  function Find(s: string, sep: string): (r: Option<nat>)
    requires |sep| > 0
    ensures r.Some? ==> OccursAt(s, sep, r.value)
    ensures r.Some? ==> forall k: nat :: k < r.value ==> !OccursAt(s, sep, k)
    ensures r.None? ==> forall k: nat :: !OccursAt(s, sep, k)
    decreases |s|
  {
    if |s| < |sep| then None
    else if s[..|sep|] == sep then Some(0)
    else
      match Find(s[1..], sep)
      case None =>
        assert forall k: nat :: !OccursAt(s, sep, k) by {
          forall k: nat ensures !OccursAt(s, sep, k) {
            if k > 0 { OccursShift(s, sep, k - 1); }
          }
        }
        None
      case Some(j) =>
        OccursShift(s, sep, j);
        assert forall k: nat :: k < j + 1 ==> !OccursAt(s, sep, k) by {
          forall k: nat | k < j + 1 ensures !OccursAt(s, sep, k) {
            if k > 0 { OccursShift(s, sep, k - 1); }
          }
        }
        Some(j + 1)
  }

  /** `parts.join(sep)`. */
  function Join(parts: seq<string>, sep: string): string {
    if |parts| == 0 then ""
    else if |parts| == 1 then parts[0]
    else parts[0] + sep + Join(parts[1..], sep)
  }

  lemma NoOccurrenceBefore(s: string, sep: string, j: nat)
    requires |sep| > 0 && j <= |s|
    requires forall k: nat :: k < j ==> !OccursAt(s, sep, k)
    ensures !Contains(s[..j], sep)
  {
    forall k: nat ensures !OccursAt(s[..j], sep, k) {
      if OccursAt(s[..j], sep, k) {
        assert s[..j][k..k + |sep|] == s[k..k + |sep|];
        assert OccursAt(s, sep, k);
      }
    }
  }

  /** `s.split(sep)` for a non-empty separator: the pieces re-join to `s`
      and no piece contains the separator. */
  function Split(s: string, sep: string): (parts: seq<string>)
    requires |sep| > 0
    ensures |parts| >= 1
    ensures Join(parts, sep) == s
    ensures forall i :: 0 <= i < |parts| ==> !Contains(parts[i], sep)
    decreases |s|
  {
    match Find(s, sep)
    case None => [s]
    case Some(j) =>
      var rest := Split(s[j + |sep|..], sep);
      NoOccurrenceBefore(s, sep, j);
      assert s == s[..j] + s[j..j + |sep|] + s[j + |sep|..];
      assert ([s[..j]] + rest)[1..] == rest;
      [s[..j]] + rest
  }

  /** Every cut of `Split` is made at the leftmost occurrence: a piece
      followed by the separator first meets it at its own end. */
  lemma {:induction false} SplitLeftmost(s: string, sep: string)
    requires |sep| > 0
    ensures LeftmostCuts(Split(s, sep), sep)
    decreases |s|
  {
    match Find(s, sep)
    case None =>
    case Some(j) =>
      SplitLeftmost(s[j + |sep|..], sep);
      FirstCut(s, sep, j);
      ConsCuts(s[..j], Split(s[j + |sep|..], sep), sep);
  }

  /** Every piece but the last is cut at the leftmost separator. */
  ghost predicate LeftmostCuts(parts: seq<string>, sep: string)
    requires |sep| > 0
  {
    forall i :: 0 <= i < |parts| - 1 ==> Find(parts[i] + sep, sep) == Some(|parts[i]|)
  }

  lemma ConsCuts(head: string, rest: seq<string>, sep: string)
    requires |sep| > 0 && |rest| >= 1
    requires Find(head + sep, sep) == Some(|head|)
    requires LeftmostCuts(rest, sep)
    ensures LeftmostCuts([head] + rest, sep)
  {
    var parts := [head] + rest;
    forall i | 0 <= i < |parts| - 1 ensures Find(parts[i] + sep, sep) == Some(|parts[i]|) {
      if i > 0 {
        assert parts[i] == rest[i - 1];
      }
    }
  }

  /** The text before the first occurrence, followed by the separator,
      first meets the separator at its end. */
  lemma FirstCut(s: string, sep: string, j: nat)
    requires |sep| > 0
    requires Find(s, sep) == Some(j)
    ensures Find(s[..j] + sep, sep) == Some(j)
  {
    CutPrefix(s, sep, j);
    LeftmostIsFound(s[..j] + sep, sep, j);
  }

  lemma CutPrefix(s: string, sep: string, j: nat)
    requires OccursAt(s, sep, j)
    requires forall k: nat :: k < j ==> !OccursAt(s, sep, k)
    ensures OccursAt(s[..j] + sep, sep, j)
    ensures forall k: nat :: k < j ==> !OccursAt(s[..j] + sep, sep, k)
  {
    var n := j + |sep|;
    var t := s[..n];
    assert s[..j] + sep == t by {
      assert s[j..n] == sep;
      assert t == s[..j] + s[j..n];
    }
    assert t[j..n] == s[j..n];
    forall k: nat | k < j ensures !OccursAt(t, sep, k) {
      PrefixOccurrence(s, sep, n, k);
    }
  }

  /** An occurrence with none before it is what `Find` returns. */
  lemma LeftmostIsFound(s: string, sep: string, j: nat)
    requires |sep| > 0 && OccursAt(s, sep, j)
    requires forall k: nat :: k < j ==> !OccursAt(s, sep, k)
    ensures Find(s, sep) == Some(j)
  {
  }

  /** No occurrence can start at a character that is not the separator's first. */
  lemma NoFirstCharBefore(s: string, sep: string, j: nat)
    requires |sep| > 0 && j <= |s| && sep[0] !in s[..j]
    ensures forall k: nat :: k < j ==> !OccursAt(s, sep, k)
  {
    forall k: nat | k < j ensures !OccursAt(s, sep, k) {
      if k + |sep| <= |s| {
        assert s[k..k + |sep|][0] == s[k] == s[..j][k];
      }
    }
  }

  /** An occurrence in a prefix is an occurrence in the whole. */
  lemma PrefixOccurrence(s: string, sep: string, n: nat, k: nat)
    requires n <= |s|
    ensures OccursAt(s[..n], sep, k) ==> OccursAt(s, sep, k)
  {
    if OccursAt(s[..n], sep, k) {
      assert s[..n][k..k + |sep|] == s[k..k + |sep|];
    }
  }

  lemma SplitAt(s: string, sep: string, j: nat)
    requires |sep| > 0
    requires Find(s, sep) == Some(j)
    ensures Split(s, sep) == [s[..j]] + Split(s[j + |sep|..], sep)
  {
  }

  /** A piece free of the one-character separator `[c]`, then `c`, is
      split off first. */
  lemma SplitHead(a: string, c: char, b: string)
    requires c !in a
    ensures Split(a + [c] + b, [c]) == [a] + Split(b, [c])
  {
    var s := a + [c] + b;
    assert s[..|a|] == a && s[|a|..|a| + 1] == [c] && s[|a| + 1..] == b;
    NoFirstCharBefore(s, [c], |a|);
    LeftmostIsFound(s, [c], |a|);
    SplitAt(s, [c], |a|);
  }

  /** Text without the character `c` is a single piece. */
  lemma SplitNone(a: string, c: char)
    requires c !in a
    ensures Split(a, [c]) == [a]
  {
    assert a[..|a|] == a;
    NoFirstCharBefore(a, [c], |a|);
  }

  /** `const [key, ...rest] = s.split(sep); const value = rest.join(sep)`:
      the key is the text before the first separator and the value all of
      the text after it, further separators included. */
  function SplitFirst(s: string, sep: string): (kv: (string, string))
    requires |sep| > 0
    ensures Find(s, sep).None? ==> kv == (s, "")
    ensures Find(s, sep).Some? ==>
      kv == (s[..Find(s, sep).value], s[Find(s, sep).value + |sep|..])
  {
    var parts := Split(s, sep);
    (parts[0], Join(parts[1..], sep))
  }

  /** Index of the first `c` in `s`. */
  function IndexOf(s: string, c: char): (r: Option<nat>)
    ensures r.Some? ==> r.value < |s| && s[r.value] == c
    ensures r.Some? ==> forall k :: 0 <= k < r.value ==> s[k] != c
    ensures r.None? ==> forall k :: 0 <= k < |s| ==> s[k] != c
  {
    if |s| == 0 then None
    else if s[0] == c then Some(0)
    else match IndexOf(s[1..], c)
      case None => None
      case Some(j) => Some(j + 1)
  }

  /** ECMAScript LineTerminator: the characters `.` does not match. */
  predicate IsLineTerminator(c: char) {
    c == '\n' || c == '\r' || c == '\U{2028}' || c == '\U{2029}'
  }

  /** ECMAScript WhiteSpace or LineTerminator: the class `\s`, and what `trim` removes. */
  predicate IsWhitespace(c: char) {
    || IsLineTerminator(c)
    || c == '\t' || c == '\U{000B}' || c == '\U{000C}' || c == ' '
    || c == '\U{00A0}' || c == '\U{1680}'
    || ('\U{2000}' <= c <= '\U{200A}')
    || c == '\U{202F}' || c == '\U{205F}' || c == '\U{3000}' || c == '\U{FEFF}'
  }

  ghost predicate AllWhitespace(s: string) {
    forall i :: 0 <= i < |s| ==> IsWhitespace(s[i])
  }

  /** Length of the longest all-whitespace prefix of `s`. */
  function WhitespacePrefix(s: string): (n: nat)
    ensures n <= |s| && AllWhitespace(s[..n])
    ensures n == |s| || !IsWhitespace(s[n])
  {
    if |s| == 0 || !IsWhitespace(s[0]) then 0
    else
      var n := 1 + WhitespacePrefix(s[1..]);
      assert forall i :: 1 <= i < n ==> s[..n][i] == s[1..][..n - 1][i - 1];
      n
  }

  function TrimStart(s: string): (r: string)
    ensures |r| <= |s|
    ensures r == s[|s| - |r|..] && AllWhitespace(s[..|s| - |r|])
    ensures r == [] || !IsWhitespace(r[0])
  {
    s[WhitespacePrefix(s)..]
  }

  function TrimEnd(s: string): (r: string)
    ensures |r| <= |s|
    ensures r == s[..|r|] && AllWhitespace(s[|r|..])
    ensures r == [] || !IsWhitespace(r[|r| - 1])
    decreases |s|
  {
    if |s| > 0 && IsWhitespace(s[|s| - 1]) then
      var r := TrimEnd(s[..|s| - 1]);
      assert s[..|s| - 1][..|r|] == s[..|r|];
      assert forall i :: |r| <= i < |s| - 1 ==> s[..|s| - 1][i] == s[i];
      r
    else s
  }

  /** `s.trim()`: the middle of `s` between a whitespace prefix and a
      whitespace suffix; it is empty exactly when `s` is all whitespace, and
      otherwise starts and ends with a non-whitespace character. */
  function Trim(s: string): (r: string)
    ensures exists i, j :: 0 <= i <= j <= |s| && r == s[i..j] && AllWhitespace(s[..i]) && AllWhitespace(s[j..])
    ensures r == [] <==> AllWhitespace(s)
    ensures r != [] ==> !IsWhitespace(r[0]) && !IsWhitespace(r[|r| - 1])
  {
    TrimMiddle(s);
    TrimEmpty(s);
    TrimEnd(TrimStart(s))
  }

  lemma TrimMiddle(s: string)
    ensures var r := TrimEnd(TrimStart(s));
      exists i, j :: 0 <= i <= j <= |s| && r == s[i..j] && AllWhitespace(s[..i]) && AllWhitespace(s[j..])
  {
    var t := TrimStart(s);
    var r := TrimEnd(t);
    var i := |s| - |t|;
    var j := i + |r|;
    assert t == s[i..];
    assert r == s[i..j] by {
      assert r == t[..|r|];
    }
    assert AllWhitespace(s[j..]) by {
      assert s[j..] == t[|r|..];
    }
  }

  lemma TrimEmpty(s: string)
    ensures TrimEnd(TrimStart(s)) == [] <==> AllWhitespace(s)
  {
    var t := TrimStart(s);
    var i := |s| - |t|;
    assert forall k :: i <= k < |s| ==> s[k] == t[k - i];
  }

  function LowerChar(c: char): char {
    if 'A' <= c <= 'Z' then (c as int + 32) as char else c
  }

  /** `s.toLowerCase()` restricted to ASCII letters. */
  function Lower(s: string): (r: string)
    ensures |r| == |s|
    ensures forall i :: 0 <= i < |r| ==> !('A' <= r[i] <= 'Z')
    ensures forall i :: 0 <= i < |r| && !('A' <= s[i] <= 'Z') ==> r[i] == s[i]
    ensures forall i :: 0 <= i < |s| && 'A' <= s[i] <= 'Z' ==> r[i] as int == s[i] as int + 32
  {
    seq(|s|, i requires 0 <= i < |s| => LowerChar(s[i]))
  }
}
