/**
 * `extractMainDiagnosis` (Backend/index.js): three case-insensitive regular expressions
 * tried in order, the trimmed first capture group of the first that matches winning.
 *
 * Each pattern is written out as the search JavaScript's backtracking matcher performs:
 * start positions left to right, alternatives in the order written, greedy quantifiers
 * taking their longest run first and giving it back one character at a time. The
 * capture group `([^.\n]+)` closes patterns 1 and 2, so once it can start it keeps its
 * greedy length.
 */
module Diagnosis {
  import opened Wrappers
  import opened JsText

  /** `[^.\n]`: what the capture group of every pattern may hold. */
  predicate IsCaptureChar(c: char) {
    c != '.' && c != '\n'
  }

  predicate NotColon(c: char) {
    c != ':'
  }

  /** The characters after which `^` matches in multiline mode. */
  predicate IsLineTerminator(c: char) {
    c == '\n' || c == '\r' || c == '\U{2028}' || c == '\U{2029}'
  }

  /** A non-empty text free of `.` and of line feeds. */
  ghost predicate IsCapture(g: string) {
    g != [] && forall k :: 0 <= k < |g| ==> IsCaptureChar(g[k])
  }

  /** Some character from position `q` on may start the group. */
  ghost predicate CaptureFrom(t: string, q: nat) {
    exists k :: q <= k < |t| && IsCaptureChar(t[k])
  }

  /** The group `([^.\n]+)` started at `s`, with its greedy length. */
  function GroupAt(t: string, s: nat): (g: Option<string>)
    requires s <= |t|
    ensures g.Some? <==> s < |t| && IsCaptureChar(t[s])
    ensures g.Some? ==> IsCapture(g.value) && IsSliceOf(g.value, t)
  {
    if s < |t| && IsCaptureChar(t[s]) then
      var e := RunEnd(t, s, IsCaptureChar);
      assert t[s..e] == t[s..e];
      Some(t[s..e])
    else None
  }

  // ---------------------------------------------------------------------------------
  // Pattern 1: /(?:diagnostic|hypothèse|conclusion)[^:]*:?\s*([^.\n]+)/i
  // ---------------------------------------------------------------------------------

  const DiagnosisWords: seq<string> := ["diagnostic", "hypothèse", "conclusion"]

  /** `\s*` then the group, the white space before `s + m` given back from the longest. */
  function SpacesThenGroup(t: string, s: nat, m: nat): (g: Option<string>)
    requires s + m <= |t|
    ensures g.Some? ==> IsCapture(g.value) && IsSliceOf(g.value, t)
    decreases m
  {
    var here := GroupAt(t, s + m);
    if here.Some? then here
    else if m == 0 then None
    else SpacesThenGroup(t, s, m - 1)
  }

  /** `\s*([^.\n]+)` from `s`. */
  function OptSpacesGroup(t: string, s: nat): (g: Option<string>)
    requires s <= |t|
    ensures g.Some? ==> IsCapture(g.value) && IsSliceOf(g.value, t)
  {
    SpacesThenGroup(t, s, RunEnd(t, s, IsSpace) - s)
  }

  /** `:?\s*([^.\n]+)` from `r`: with the colon taken first, then without it. */
  function ColonThenGroup(t: string, r: nat): (g: Option<string>)
    requires r <= |t|
    ensures g.Some? ==> IsCapture(g.value) && IsSliceOf(g.value, t)
  {
    if r < |t| && t[r] == ':' then
      var g := OptSpacesGroup(t, r + 1);
      if g.Some? then g else OptSpacesGroup(t, r)
    else OptSpacesGroup(t, r)
  }

  /** `[^:]*` from `q` given back from `q + n` down to `q`, each length followed by the rest. */
  function LabelThenGroup(t: string, q: nat, n: nat): (g: Option<string>)
    requires q + n <= |t|
    ensures g.Some? ==> IsCapture(g.value) && IsSliceOf(g.value, t)
    decreases n
  {
    var here := ColonThenGroup(t, q + n);
    if here.Some? then here
    else if n == 0 then None
    else LabelThenGroup(t, q, n - 1)
  }

  /** Everything after the keyword, which ends at `q`. */
  function AfterDiagnosisWord(t: string, q: nat): (g: Option<string>)
    requires q <= |t|
    ensures g.Some? ==> IsCapture(g.value) && IsSliceOf(g.value, t)
  {
    LabelThenGroup(t, q, RunEnd(t, q, NotColon) - q)
  }

  /** A keyword among `words` at `p`, tried in order, with the rest of the pattern after it. */
  function DiagnosisAt(t: string, p: nat, words: seq<string>): (g: Option<string>)
    requires p <= |t|
    ensures g.Some? ==> IsCapture(g.value) && IsSliceOf(g.value, t)
  {
    if words == [] then None
    else
      var g := if WordAt(t, p, words[0]) then AfterDiagnosisWord(t, p + |words[0]|) else None;
      if g.Some? then g else DiagnosisAt(t, p, words[1..])
  }

  /** The leftmost match starting at `p` or later. */
  function DiagnosisFrom(t: string, p: nat, words: seq<string>): (g: Option<string>)
    requires p <= |t|
    ensures g.Some? ==> IsCapture(g.value) && IsSliceOf(g.value, t)
    decreases |t| - p
  {
    var here := DiagnosisAt(t, p, words);
    if here.Some? then here
    else if p == |t| then None
    else DiagnosisFrom(t, p + 1, words)
  }

  /** Pattern 1: a "diagnostic", "hypothèse" or "conclusion" label and what follows it. */
  function LabelledDiagnosis(t: string): (g: Option<string>)
    ensures g.Some? ==> IsCapture(g.value) && IsSliceOf(g.value, t)
  {
    DiagnosisFrom(t, 0, DiagnosisWords)
  }

  // When pattern 1 matches: one lemma per step of the search.

  lemma {:induction false} SpacesThenGroupFinds(t: string, s: nat, m: nat)
    requires s + m <= |t|
    ensures SpacesThenGroup(t, s, m).Some? <==> exists j :: s <= j <= s + m && j < |t| && IsCaptureChar(t[j])
    decreases m
  {
    if m > 0 {
      SpacesThenGroupFinds(t, s, m - 1);
    }
  }

  lemma OptSpacesGroupFinds(t: string, s: nat)
    requires s <= |t|
    ensures OptSpacesGroup(t, s).Some? ==> CaptureFrom(t, s)
    ensures s < |t| && IsCaptureChar(t[s]) ==> OptSpacesGroup(t, s).Some?
  {
    SpacesThenGroupFinds(t, s, RunEnd(t, s, IsSpace) - s);
  }

  lemma ColonThenGroupFinds(t: string, r: nat)
    requires r <= |t|
    ensures ColonThenGroup(t, r).Some? ==> CaptureFrom(t, r)
    ensures r < |t| && IsCaptureChar(t[r]) ==> ColonThenGroup(t, r).Some?
  {
    OptSpacesGroupFinds(t, r);
    if r < |t| && t[r] == ':' {
      OptSpacesGroupFinds(t, r + 1);
    }
  }

  lemma {:induction false} LabelThenGroupFinds(t: string, q: nat, n: nat)
    requires q + n <= |t|
    ensures LabelThenGroup(t, q, n).Some? ==> CaptureFrom(t, q)
    ensures (exists m :: q <= m <= q + n && m < |t| && IsCaptureChar(t[m])) ==> LabelThenGroup(t, q, n).Some?
    decreases n
  {
    ColonThenGroupFinds(t, q + n);
    if n > 0 {
      LabelThenGroupFinds(t, q, n - 1);
    }
  }

  /** After a keyword, the rest of pattern 1 matches exactly when some later character is
      neither `.` nor a line feed: a colon itself may open the group. */
  lemma AfterDiagnosisWordFinds(t: string, q: nat)
    requires q <= |t|
    ensures AfterDiagnosisWord(t, q).Some? <==> CaptureFrom(t, q)
  {
    var r := RunEnd(t, q, NotColon);
    LabelThenGroupFinds(t, q, r - q);
    if CaptureFrom(t, q) {
      var k :| q <= k < |t| && IsCaptureChar(t[k]);
      if k > r {
        assert t[r] == ':' && IsCaptureChar(t[r]);
      }
    }
  }

  lemma {:induction false} DiagnosisAtFinds(t: string, p: nat, words: seq<string>)
    requires p <= |t|
    ensures DiagnosisAt(t, p, words).Some? <==>
      exists k :: 0 <= k < |words| && WordAt(t, p, words[k]) && CaptureFrom(t, p + |words[k]|)
  {
    if words != [] {
      if WordAt(t, p, words[0]) {
        AfterDiagnosisWordFinds(t, p + |words[0]|);
      }
      DiagnosisAtFinds(t, p, words[1..]);
      assert forall k :: 1 <= k < |words| ==> words[k] == words[1..][k - 1];
    }
  }

  /** A keyword among `words` at `p` that the rest of pattern 1 can complete. */
  ghost predicate LabelledAt(t: string, p: nat, words: seq<string>) {
    exists k :: 0 <= k < |words| && WordAt(t, p, words[k]) && CaptureFrom(t, p + |words[k]|)
  }

  lemma {:induction false} DiagnosisFromFinds(t: string, p: nat, words: seq<string>)
    requires p <= |t|
    ensures DiagnosisFrom(t, p, words).Some? <==> exists p' :: p <= p' <= |t| && LabelledAt(t, p', words)
    decreases |t| - p
  {
    DiagnosisAtFinds(t, p, words);
    assert LabelledAt(t, p, words) <==> DiagnosisAt(t, p, words).Some?;
    if p < |t| {
      DiagnosisFromFinds(t, p + 1, words);
      if DiagnosisFrom(t, p, words).None? {
        forall p' | p <= p' <= |t|
          ensures !LabelledAt(t, p', words)
        {
          if p' == p {
            assert DiagnosisAt(t, p, words).None?;
          }
        }
      }
    }
  }

  /** Pattern 1 finds a diagnosis exactly when some keyword occurs and is followed, anywhere
      later in the text, by a character other than `.` and line feed. */
  lemma LabelledDiagnosisExists(t: string)
    ensures LabelledDiagnosis(t).Some? <==> exists p :: 0 <= p <= |t| && LabelledAt(t, p, DiagnosisWords)
  {
    DiagnosisFromFinds(t, 0, DiagnosisWords);
  }

  /** The usual shape: the keyword at `p` starts the leftmost match, its label runs to the
      first colon at `r`, and the value after the blanks that follow starts at `s`. The
      diagnosis is the value up to the next `.` or line feed. */
  lemma LabelledLine(t: string, p: nat, k: nat, r: nat, s: nat)
    requires k < |DiagnosisWords| && WordAt(t, p, DiagnosisWords[k])
    requires forall p' :: 0 <= p' < p ==> DiagnosisAt(t, p', DiagnosisWords).None?
    requires p + |DiagnosisWords[k]| <= r < s < |t|
    requires forall i :: p + |DiagnosisWords[k]| <= i < r ==> t[i] != ':'
    requires t[r] == ':'
    requires forall i :: r < i < s ==> IsSpace(t[i])
    requires !IsSpace(t[s]) && IsCaptureChar(t[s])
    ensures LabelledDiagnosis(t) == Some(t[s..RunEnd(t, s, IsCaptureChar)])
  {
    DiagnosisWordsDistinct(t, p, k);
    LabelledLineAmong(t, p, DiagnosisWords, k, r, s);
  }

  lemma LabelledLineAmong(t: string, p: nat, words: seq<string>, k: nat, r: nat, s: nat)
    requires k < |words| && WordAt(t, p, words[k])
    requires forall j :: 0 <= j < |words| && j != k ==> !WordAt(t, p, words[j])
    requires forall p' :: 0 <= p' < p ==> DiagnosisAt(t, p', words).None?
    requires p + |words[k]| <= r < s < |t|
    requires forall i :: p + |words[k]| <= i < r ==> t[i] != ':'
    requires t[r] == ':'
    requires forall i :: r < i < s ==> IsSpace(t[i])
    requires !IsSpace(t[s]) && IsCaptureChar(t[s])
    ensures DiagnosisFrom(t, 0, words) == GroupAt(t, s)
  {
    var q := p + |words[k]|;
    ColonLabel(t, q, r, s);
    DiagnosisAtOnlyWord(t, p, words, k);
    DiagnosisFromLeftmost(t, 0, p, words);
  }

  /** A label ending in a colon, blanks, then a value starting at `s`. */
  lemma ColonLabel(t: string, q: nat, r: nat, s: nat)
    requires q <= r < s < |t|
    requires forall i :: q <= i < r ==> t[i] != ':'
    requires t[r] == ':'
    requires forall i :: r < i < s ==> IsSpace(t[i])
    requires !IsSpace(t[s]) && IsCaptureChar(t[s])
    ensures AfterDiagnosisWord(t, q) == GroupAt(t, s)
  {
    RunEndAt(t, q, NotColon, r);
    RunEndAt(t, r + 1, IsSpace, s);
    assert OptSpacesGroup(t, r + 1) == GroupAt(t, s);
    assert ColonThenGroup(t, r) == GroupAt(t, s);
  }

  /** The three keywords differ in their first letter, so at most one occurs at `p`. */
  lemma DiagnosisWordsDistinct(t: string, p: nat, k: nat)
    requires k < |DiagnosisWords| && WordAt(t, p, DiagnosisWords[k])
    ensures forall j :: 0 <= j < |DiagnosisWords| && j != k ==> !WordAt(t, p, DiagnosisWords[j])
  {
    var w := DiagnosisWords;
    assert w[0][0] == 'd' && w[1][0] == 'h' && w[2][0] == 'c';
    assert Upper(t[p]) == Upper(w[k][0]);
  }

  /** Where no keyword occurs, pattern 1 cannot start. */
  lemma {:induction false} DiagnosisAtNoWord(t: string, p: nat, words: seq<string>)
    requires p <= |t|
    requires forall j :: 0 <= j < |words| ==> !WordAt(t, p, words[j])
    ensures DiagnosisAt(t, p, words) == None
  {
    if words != [] {
      assert !WordAt(t, p, words[0]);
      assert forall j :: 0 <= j < |words[1..]| ==> words[1..][j] == words[j + 1];
      DiagnosisAtNoWord(t, p, words[1..]);
    }
  }

  /** A keyword that does not occur at `p` is skipped. */
  lemma DiagnosisAtSkip(t: string, p: nat, words: seq<string>)
    requires p <= |t| && words != [] && !WordAt(t, p, words[0])
    ensures DiagnosisAt(t, p, words) == DiagnosisAt(t, p, words[1..])
  {
  }

  /** A keyword at `p` that no later keyword rivals decides the match. */
  lemma DiagnosisAtHead(t: string, p: nat, words: seq<string>)
    requires p <= |t| && words != [] && WordAt(t, p, words[0]) && DiagnosisAt(t, p, words[1..]) == None
    ensures DiagnosisAt(t, p, words) == AfterDiagnosisWord(t, p + |words[0]|)
  {
  }

  /** At a position where only the `k`-th keyword occurs, pattern 1 gives what follows it. */
  lemma {:induction false} DiagnosisAtOnlyWord(t: string, p: nat, words: seq<string>, k: nat)
    requires p <= |t| && k < |words| && WordAt(t, p, words[k])
    requires forall j :: 0 <= j < |words| && j != k ==> !WordAt(t, p, words[j])
    ensures DiagnosisAt(t, p, words) == AfterDiagnosisWord(t, p + |words[k]|)
  {
    var rest := words[1..];
    if k == 0 {
      forall j | 0 <= j < |rest| ensures !WordAt(t, p, rest[j]) {
        assert rest[j] == words[j + 1];
      }
      DiagnosisAtNoWord(t, p, rest);
      DiagnosisAtHead(t, p, words);
    } else {
      forall j | 0 <= j < |rest| && j != k - 1 ensures !WordAt(t, p, rest[j]) {
        assert rest[j] == words[j + 1];
      }
      assert rest[k - 1] == words[k];
      DiagnosisAtSkip(t, p, words);
      DiagnosisAtOnlyWord(t, p, rest, k - 1);
    }
  }

  /** When no earlier start matches, the search from `from` lands on the one at `p`. */
  lemma {:induction false} DiagnosisFromLeftmost(t: string, from: nat, p: nat, words: seq<string>)
    requires from <= p <= |t|
    requires forall p' :: from <= p' < p ==> DiagnosisAt(t, p', words).None?
    ensures DiagnosisFrom(t, from, words) ==
      (if DiagnosisAt(t, p, words).Some? then DiagnosisAt(t, p, words) else DiagnosisFrom(t, p, words))
    decreases p - from
  {
    if from < p {
      assert DiagnosisAt(t, from, words).None?;
      DiagnosisFromLeftmost(t, from + 1, p, words);
    }
  }

  // Without a colon, `[^:]*` runs to the end of the text (across dots and line feeds) and
  // gives back only as much as the group needs: one character.

  /** After a keyword ending at `q` with no colon in the rest of the text, the capture is the
      text's last character alone. */
  lemma NoColonTail(t: string, q: nat)
    requires q < |t| && forall i :: q <= i < |t| ==> t[i] != ':'
    requires IsCaptureChar(t[|t| - 1]) && !IsSpace(t[|t| - 1])
    ensures AfterDiagnosisWord(t, q) == Some([t[|t| - 1]])
  {
    RunEndAt(t, q, NotColon, |t|);
    RunEndAt(t, |t|, IsSpace, |t|);
    assert ColonThenGroup(t, |t|) == None;
    RunEndAt(t, |t| - 1, IsSpace, |t| - 1);
    RunEndAt(t, |t| - 1, IsCaptureChar, |t|);
    assert ColonThenGroup(t, |t| - 1) == GroupAt(t, |t| - 1);
    assert t[|t| - 1..|t|] == [t[|t| - 1]];
    var n := |t| - q;
    assert LabelThenGroup(t, q, n) == LabelThenGroup(t, q, n - 1);
    assert LabelThenGroup(t, q, n - 1) == ColonThenGroup(t, |t| - 1);
  }

  /** A text that opens with a keyword and has no colon: pattern 1 captures only its last
      character. */
  lemma LabelWithoutColon(t: string, k: nat)
    requires k < |DiagnosisWords| && WordAt(t, 0, DiagnosisWords[k]) && |DiagnosisWords[k]| < |t|
    requires forall i :: |DiagnosisWords[k]| <= i < |t| ==> t[i] != ':'
    requires IsCaptureChar(t[|t| - 1]) && !IsSpace(t[|t| - 1])
    ensures LabelledDiagnosis(t) == Some([t[|t| - 1]])
  {
    NoColonTail(t, |DiagnosisWords[k]|);
    DiagnosisWordsDistinct(t, 0, k);
    DiagnosisAtOnlyWord(t, 0, DiagnosisWords, k);
  }

  /** "Conclusion ab" gives the diagnosis "b". */
  lemma LabelWithoutColonExample()
    ensures LabelledDiagnosis("Conclusion ab") == Some("b")
  {
    var t := "Conclusion ab";
    assert WordAt(t, 0, DiagnosisWords[2]);
    LabelWithoutColon(t, 2);
  }

  // ---------------------------------------------------------------------------------
  // Pattern 2: /(?:suspicion|évocation)\s+d?[''']?([^.\n]+)/i
  // (the class [''']  lists the ASCII apostrophe three times)
  // ---------------------------------------------------------------------------------

  const SuspicionWords: seq<string> := ["suspicion", "évocation"]

  /** `'?` then the group, from `m`. */
  function ApostropheThenGroup(t: string, m: nat): (g: Option<string>)
    requires m <= |t|
    ensures g.Some? ==> IsCapture(g.value) && IsSliceOf(g.value, t)
  {
    if m < |t| && t[m] == '\'' then
      var g := GroupAt(t, m + 1);
      if g.Some? then g else GroupAt(t, m)
    else GroupAt(t, m)
  }

  /** `d?'?` then the group, from `m`; `d` matches either case. */
  function ArticleThenGroup(t: string, m: nat): (g: Option<string>)
    requires m <= |t|
    ensures g.Some? ==> IsCapture(g.value) && IsSliceOf(g.value, t)
  {
    if m < |t| && Upper(t[m]) == 'D' then
      var g := ApostropheThenGroup(t, m + 1);
      if g.Some? then g else ApostropheThenGroup(t, m)
    else ApostropheThenGroup(t, m)
  }

  /** `\s+` from `q`, given back from `q + n` down to `q + 1`, then the rest. */
  function BlanksThenArticle(t: string, q: nat, n: nat): (g: Option<string>)
    requires 1 <= n && q + n <= |t|
    ensures g.Some? ==> IsCapture(g.value) && IsSliceOf(g.value, t)
    decreases n
  {
    var here := ArticleThenGroup(t, q + n);
    if here.Some? then here
    else if n == 1 then None
    else BlanksThenArticle(t, q, n - 1)
  }

  function SuspicionAt(t: string, p: nat, words: seq<string>): (g: Option<string>)
    requires p <= |t|
    ensures g.Some? ==> IsCapture(g.value) && IsSliceOf(g.value, t)
  {
    if words == [] then None
    else
      var g :=
        if WordAt(t, p, words[0]) then
          var q := p + |words[0]|;
          var n := RunEnd(t, q, IsSpace) - q;
          if n == 0 then None else BlanksThenArticle(t, q, n)
        else None;
      if g.Some? then g else SuspicionAt(t, p, words[1..])
  }

  function SuspicionFrom(t: string, p: nat): (g: Option<string>)
    requires p <= |t|
    ensures g.Some? ==> IsCapture(g.value) && IsSliceOf(g.value, t)
    decreases |t| - p
  {
    var here := SuspicionAt(t, p, SuspicionWords);
    if here.Some? then here
    else if p == |t| then None
    else SuspicionFrom(t, p + 1)
  }

  /** Pattern 2: "suspicion" or "évocation", blanks, an optional "d" and apostrophe, and
      what follows. */
  function SuspicionPhrase(t: string): (g: Option<string>)
    ensures g.Some? ==> IsCapture(g.value) && IsSliceOf(g.value, t)
  {
    SuspicionFrom(t, 0)
  }

  // ---------------------------------------------------------------------------------
  // Pattern 3: /^([^.\n]+)(?:\s+est|sont)?\s+(?:évoqué|suspecté|probable)/im
  // ---------------------------------------------------------------------------------

  const LikelihoodWords: seq<string> := ["évoqué", "suspecté", "probable"]

  predicate SomeWordAt(t: string, i: nat, words: seq<string>) {
    exists w | w in words :: WordAt(t, i, w)
  }

  /** `\s+(?:évoqué|suspecté|probable)` can match at `i`. */
  predicate BlanksThenLikelihood(t: string, i: nat)
    requires i <= |t|
  {
    var e := RunEnd(t, i, IsSpace);
    exists m | i < m <= e :: SomeWordAt(t, m, LikelihoodWords)
  }

  /** `(?:\s+est|sont)?\s+(?:évoqué|suspecté|probable)` can match at `i`. Only whether it
      can matters: the group before it is already fixed. */
  predicate LikelihoodTail(t: string, i: nat)
    requires i <= |t|
  {
    var e := RunEnd(t, i, IsSpace);
    || (exists m | i < m <= e :: WordAt(t, m, "est") && BlanksThenLikelihood(t, m + 3))
    || (WordAt(t, i, "sont") && BlanksThenLikelihood(t, i + 4))
    || BlanksThenLikelihood(t, i)
  }

  /** The group from the line start `p`, given back from `t[p..g]` down to one character. */
  function SentenceGroup(t: string, p: nat, g: nat): (r: Option<string>)
    requires p < g <= |t|
    requires forall k :: p <= k < g ==> IsCaptureChar(t[k])
    ensures r.Some? ==> IsCapture(r.value) && exists e :: p < e <= g && r.value == t[p..e] && LikelihoodTail(t, e)
    decreases g - p
  {
    if LikelihoodTail(t, g) then Some(t[p..g])
    else if g == p + 1 then None
    else SentenceGroup(t, p, g - 1)
  }

  predicate IsLineStart(t: string, p: nat)
    requires p <= |t|
  {
    p == 0 || IsLineTerminator(t[p - 1])
  }

  function SentenceAt(t: string, p: nat): (r: Option<string>)
    requires p <= |t|
    ensures r.Some? ==> IsCapture(r.value) && IsLineStart(t, p)
    ensures r.Some? ==> exists e :: p < e <= |t| && r.value == t[p..e] && LikelihoodTail(t, e)
  {
    if IsLineStart(t, p) then
      var e := RunEnd(t, p, IsCaptureChar);
      if p < e then SentenceGroup(t, p, e) else None
    else None
  }

  function SentenceFrom(t: string, p: nat): (r: Option<string>)
    requires p <= |t|
    ensures r.Some? ==> IsCapture(r.value)
    ensures r.Some? ==> exists s, e :: p <= s < e <= |t| && IsLineStart(t, s) && r.value == t[s..e] && LikelihoodTail(t, e)
    decreases |t| - p
  {
    var here := SentenceAt(t, p);
    if here.Some? then here
    else if p == |t| then None
    else SentenceFrom(t, p + 1)
  }

  /** Pattern 3: the start of a line up to "évoqué", "suspecté" or "probable" (optionally
      after "est" or "sont"). The capture starts a line and is followed by that wording. */
  function LikelySentence(t: string): (r: Option<string>)
    ensures r.Some? ==> IsCapture(r.value)
    ensures r.Some? ==> exists s, e :: 0 <= s < e <= |t| && IsLineStart(t, s) && r.value == t[s..e] && LikelihoodTail(t, e)
  {
    SentenceFrom(t, 0)
  }

  // ---------------------------------------------------------------------------------
  // extractMainDiagnosis
  // ---------------------------------------------------------------------------------

  /** The patterns in the order `extractMainDiagnosis` tries them. */
  const Patterns: seq<string -> Option<string>> := [LabelledDiagnosis, SuspicionPhrase, LikelySentence]

  /** A matcher whose capture is always a non-empty text without `.` or line feed. */
  ghost predicate YieldsCaptures(pattern: string -> Option<string>) {
    forall t :: pattern(t).Some? ==> IsCapture(pattern(t).value)
  }

  /** The trimmed capture of the first pattern that matches; `None` when none does. */
  function FirstCapture(patterns: seq<string -> Option<string>>, text: string): (r: Option<string>)
    ensures (forall k :: 0 <= k < |patterns| ==> YieldsCaptures(patterns[k])) && r.Some? ==>
      IsTrimmed(r.value) && forall i :: 0 <= i < |r.value| ==> IsCaptureChar(r.value[i])
    ensures r.None? <==> forall k :: 0 <= k < |patterns| ==> patterns[k](text).None?
    ensures forall k :: 0 <= k < |patterns| && patterns[k](text).Some? && (forall j :: 0 <= j < k ==> patterns[j](text).None?) ==>
      r == Some(Trim(patterns[k](text).value))
  {
    if patterns == [] then None
    else
      var m := patterns[0](text);
      if m.Some? then
        var r := Trim(m.value);
        TrimSpec(m.value);
        Some(r)
      else
        var rest := FirstCapture(patterns[1..], text);
        assert forall k :: 1 <= k < |patterns| ==> patterns[k] == patterns[1..][k - 1];
        rest
  }

  /** What `extractMainDiagnosis` returns: the trimmed diagnosis, with no `.` and no line
      feed in it, or `None` (JavaScript's `null`) exactly when no pattern matches. */
  function MainDiagnosis(text: string): (r: Option<string>)
    ensures r.Some? ==> IsTrimmed(r.value) && forall i :: 0 <= i < |r.value| ==> IsCaptureChar(r.value[i])
    ensures r.None? <==> LabelledDiagnosis(text).None? && SuspicionPhrase(text).None? && LikelySentence(text).None?
    ensures LabelledDiagnosis(text).Some? ==> r == Some(Trim(LabelledDiagnosis(text).value))
    ensures LabelledDiagnosis(text).None? && SuspicionPhrase(text).Some? ==> r == Some(Trim(SuspicionPhrase(text).value))
    ensures LabelledDiagnosis(text).None? && SuspicionPhrase(text).None? && LikelySentence(text).Some? ==>
      r == Some(Trim(LikelySentence(text).value))
  {
    assert YieldsCaptures(Patterns[0]) && YieldsCaptures(Patterns[1]) && YieldsCaptures(Patterns[2]);
    FirstCapture(Patterns, text)
  }

  /** `extractMainDiagnosis`: the loop over the three patterns, returning the trimmed
      capture of the first one that matches. */
  method ExtractMainDiagnosis(text: string) returns (diagnosis: Option<string>)
    ensures diagnosis == MainDiagnosis(text)
    ensures LabelledDiagnosis(text).Some? ==> diagnosis == Some(Trim(LabelledDiagnosis(text).value))
  {
    var patterns := Patterns;
    for i := 0 to |patterns|
      invariant FirstCapture(patterns, text) == FirstCapture(patterns[i..], text)
    {
      assert patterns[i..][1..] == patterns[i + 1..];
      var found := patterns[i](text);
      if found.Some? {
        return Some(Trim(found.value));
      }
    }
    return None;
  }
}
