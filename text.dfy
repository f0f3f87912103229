/**
 * The JavaScript string primitives the report code relies on, on strings of Unicode
 * scalar values: `trim`, `split` on one character, `includes`, `startsWith`, the
 * white-space class `\s` and the case-insensitive comparison of the `i` regex flag.
 */
module JsText {

  /** White space as `String.prototype.trim` and the regex class `\s` see it:
      ECMAScript's WhiteSpace and LineTerminator code points. */
  predicate IsSpace(c: char) {
    || c == '\t' || c == '\n' || c == '\U{B}' || c == '\U{C}' || c == '\r' || c == ' '
    || c == '\U{A0}' || c == '\U{1680}' || ('\U{2000}' <= c <= '\U{200A}')
    || c == '\U{2028}' || c == '\U{2029}' || c == '\U{202F}' || c == '\U{205F}'
    || c == '\U{3000}' || c == '\U{FEFF}'
  }

  /** The regex class `\d`: an ASCII digit. */
  predicate IsDigit(c: char) {
    '0' <= c <= '9'
  }

  ghost predicate AllSpace(s: string) {
    forall k :: 0 <= k < |s| ==> IsSpace(s[k])
  }

  /** Neither starts nor ends with white space. */
  ghost predicate IsTrimmed(s: string) {
    s == [] || (!IsSpace(s[0]) && !IsSpace(s[|s| - 1]))
  }

  /** `s` occurs in `t` as a contiguous piece. */
  ghost predicate IsSliceOf(s: string, t: string) {
    exists i, j :: 0 <= i <= j <= |t| && t[i..j] == s
  }

  /** The end of the longest run of characters satisfying `p` that starts at `i`:
      how far a greedy `[...]*` reaches before any backtracking. */
  function RunEnd(s: string, i: nat, p: char -> bool): (j: nat)
    requires i <= |s|
    ensures i <= j <= |s|
    ensures forall k :: i <= k < j ==> p(s[k])
    ensures j < |s| ==> !p(s[j])
    decreases |s| - i
  {
    if i < |s| && p(s[i]) then RunEnd(s, i + 1, p) else i
  }

  /** The start of the longest run of characters satisfying `p` that ends at `j`. */
  function RunStart(s: string, j: nat, p: char -> bool): (i: nat)
    requires j <= |s|
    ensures i <= j
    ensures forall k :: i <= k < j ==> p(s[k])
    ensures 0 < i ==> !p(s[i - 1])
  {
    if 0 < j && p(s[j - 1]) then RunStart(s, j - 1, p) else j
  }

  /** A run of `p` from `i` that stops at `j` is the greedy run. */
  lemma RunEndAt(t: string, i: nat, p: char -> bool, j: nat)
    requires i <= j <= |t|
    requires forall k :: i <= k < j ==> p(t[k])
    requires j < |t| ==> !p(t[j])
    ensures RunEnd(t, i, p) == j
  {
  }

  /** A run of `p` ending at `j` that starts at `i` is the longest such run. */
  lemma RunStartAt(t: string, i: nat, p: char -> bool, j: nat)
    requires i <= j <= |t|
    requires forall k :: i <= k < j ==> p(t[k])
    requires 0 < i ==> !p(t[i - 1])
    ensures RunStart(t, j, p) == i
  {
  }

  /** `s.trim()`: drops the white space at both ends and keeps the middle as it is. */
  function Trim(s: string): (r: string)
    ensures IsTrimmed(r)
    ensures IsTrimmed(s) ==> r == s
  {
    var i := RunEnd(s, 0, IsSpace);
    if i == |s| then
      assert s[0..0] == [];
      []
    else
      var j := RunStart(s, |s|, IsSpace);
      assert i < j;
      assert s[i..j] == s[i..j][..];
      s[i..j]
  }

  /** `Trim` keeps the middle of its input between a blank prefix and a blank suffix, and
      empties exactly the all-blank texts. */
  lemma TrimSpec(s: string)
    ensures Trim(s) == [] <==> AllSpace(s)
    ensures IsSliceOf(Trim(s), s)
    ensures exists i, j :: 0 <= i <= j <= |s| && Trim(s) == s[i..j] && AllSpace(s[..i]) && AllSpace(s[j..])
  {
    var i := RunEnd(s, 0, IsSpace);
    if i == |s| {
      assert s[0..0] == [] && s[i..i] == [] && s[..i] == s;
    } else {
      var j := RunStart(s, |s|, IsSpace);
      assert Trim(s) == s[i..j];
      assert AllSpace(s[..i]) && AllSpace(s[j..]);
    }
  }

  /** Where the middle of `s` starts and ends. */
  lemma TrimBounds(s: string) returns (i: nat, j: nat)
    ensures i <= j <= |s| && Trim(s) == s[i..j] && AllSpace(s[..i]) && AllSpace(s[j..])
  {
    i := RunEnd(s, 0, IsSpace);
    if i == |s| {
      j := i;
      assert s[i..i] == [];
    } else {
      j := RunStart(s, |s|, IsSpace);
      assert Trim(s) == s[i..j];
    }
  }

  /** The middle is unique: a trimmed piece between a blank prefix and a blank suffix is
      what `Trim` returns. */
  lemma TrimUnique(s: string, i: nat, j: nat)
    requires i <= j <= |s| && AllSpace(s[..i]) && AllSpace(s[j..]) && IsTrimmed(s[i..j])
    ensures Trim(s) == s[i..j]
  {
    if i == j {
      forall k | 0 <= k < |s| ensures IsSpace(s[k]) {
        if k < i { assert s[..i][k] == s[k]; } else { assert s[j..][k - j] == s[k]; }
      }
      TrimSpec(s);
    } else {
      forall k | 0 <= k < i ensures IsSpace(s[k]) { assert s[..i][k] == s[k]; }
      forall k | j <= k < |s| ensures IsSpace(s[k]) { assert s[j..][k - j] == s[k]; }
      assert !IsSpace(s[i]) && !IsSpace(s[j - 1]);
      RunEndAt(s, 0, IsSpace, i);
      RunStartAt(s, j, IsSpace, |s|);
    }
  }

  /** Blanks in front of a text do not change its trim. */
  lemma TrimDropBlanks(s: string, e: nat)
    requires e <= |s| && AllSpace(s[..e])
    ensures Trim(s[e..]) == Trim(s)
  {
    var t := s[e..];
    var i, j := TrimBounds(t);
    assert IsTrimmed(t[i..j]);
    BlanksAround(s, e, i, j);
    TrimUnique(s, e + i, e + j);
  }

  /** Blank ends of a suffix extend to blank ends of the whole text. */
  lemma BlanksAround(s: string, e: nat, i: nat, j: nat)
    requires e <= |s| && i <= j <= |s| - e
    requires AllSpace(s[..e]) && AllSpace(s[e..][..i]) && AllSpace(s[e..][j..])
    ensures AllSpace(s[..e + i]) && AllSpace(s[e + j..]) && s[e + i..e + j] == s[e..][i..j]
  {
    forall k | 0 <= k < e + i ensures IsSpace(s[k]) {
      if k < e { assert s[..e][k] == s[k]; } else { assert s[e..][..i][k - e] == s[k]; }
    }
    forall k | e + j <= k < |s| ensures IsSpace(s[k]) {
      assert s[e..][j..][k - e - j] == s[k];
    }
  }

  /** The first position of `c` in `s`. */
  function IndexOf(s: string, c: char): (i: nat)
    requires c in s
    ensures i < |s| && s[i] == c && c !in s[..i]
    ensures forall k :: 0 <= k < i ==> s[k] != c
  {
    if s[0] == c then 0 else
      var i := 1 + IndexOf(s[1..], c);
      assert s[..i] == [s[0]] + s[1..][..i - 1];
      i
  }

  /** The last position of `c` in `s`. */
  function LastIndexOf(s: string, c: char): (i: nat)
    requires c in s
    ensures i < |s| && s[i] == c && c !in s[i + 1..]
    ensures forall k :: i < k < |s| ==> s[k] != c
  {
    if s[|s| - 1] == c then |s| - 1 else
      assert c in s[..|s| - 1] by {
        var k :| 0 <= k < |s| && s[k] == c;
        assert s[..|s| - 1][k] == c;
      }
      var i := LastIndexOf(s[..|s| - 1], c);
      assert s[i + 1..] == s[..|s| - 1][i + 1..] + [s[|s| - 1]];
      i
  }

  /** Pieces glued back together with `sep` between them: the inverse of `Split`. */
  function Join(parts: seq<string>, sep: char): string {
    if parts == [] then []
    else if |parts| == 1 then parts[0]
    else parts[0] + [sep] + Join(parts[1..], sep)
  }

  /** `s.split(sep)` for a one-character separator: the pieces between separators, in
      order; the empty string gives one empty piece, a trailing separator a last empty one.
      The two ensures on pieces and join determine the result uniquely. */
  function Split(s: string, sep: char): (parts: seq<string>)
    ensures |parts| >= 1
    ensures forall k :: 0 <= k < |parts| ==> sep !in parts[k]
    ensures Join(parts, sep) == s
    decreases |s|
  {
    if sep !in s then [s]
    else
      var i := IndexOf(s, sep);
      var rest := Split(s[i + 1..], sep);
      assert ([s[..i]] + rest)[1..] == rest;
      assert s == s[..i] + [sep] + s[i + 1..];
      [s[..i]] + rest
  }

  /** `s.includes(sub)`. */
  predicate Contains(s: string, sub: string) {
    exists i | 0 <= i <= |s| :: sub <= s[i..]
  }

  /** The character the `i` regex flag compares by: the upper case of an ASCII or
      Latin-1 letter, every other character itself. */
  function Upper(c: char): char {
    if 'a' <= c <= 'z' || ('\U{E0}' <= c <= '\U{FE}' && c != '\U{F7}') then (c as int - 32) as char
    else c
  }

  /** The literal `word` occurs at position `i` of `s` under the `i` flag. */
  predicate WordAt(s: string, i: nat, word: string) {
    i + |word| <= |s| && forall k :: 0 <= k < |word| ==> Upper(s[i + k]) == Upper(word[k])
  }
}
