/**
 * `extractObservations` and `extractRecommendations` (Backend/index.js): split the model's
 * text on line feeds, trim each line, keep the lines a test accepts (reshaped for
 * observations, verbatim for recommendations) in input order, and fall back to fixed
 * placeholder lists when no line qualifies.
 */
module Extractors {
  import opened JsText

  // ---------------------------------------------------------------------------------
  // Line mining shared by both extractors
  // ---------------------------------------------------------------------------------

  /** Every line trimmed, in place. */
  function TrimAll(lines: seq<string>): (r: seq<string>)
    ensures |r| == |lines| && forall i :: 0 <= i < |lines| ==> r[i] == Trim(lines[i])
  {
    seq(|lines|, i requires 0 <= i < |lines| => Trim(lines[i]))
  }

  /** The lines `keep` accepts, each passed through `reshape`, in input order. */
  function Mined(lines: seq<string>, keep: string -> bool, reshape: string -> string): (r: seq<string>)
    ensures |r| <= |lines|
  {
    if lines == [] then []
    else
      var init := Mined(lines[..|lines| - 1], keep, reshape);
      var line := lines[|lines| - 1];
      if keep(line) then init + [reshape(line)] else init
  }

  /** Mining distributes over concatenation: lines keep their relative order. */
  lemma {:induction false} MinedAppend(a: seq<string>, b: seq<string>, keep: string -> bool, reshape: string -> string)
    ensures Mined(a + b, keep, reshape) == Mined(a, keep, reshape) + Mined(b, keep, reshape)
    decreases |b|
  {
    if b == [] {
      assert a + b == a;
    } else {
      var b' := b[..|b| - 1];
      assert (a + b)[..|a + b| - 1] == a + b';
      MinedAppend(a, b', keep, reshape);
    }
  }

  /** One more line: mined and appended exactly when `keep` accepts it. */
  lemma MinedStep(lines: seq<string>, i: nat, keep: string -> bool, reshape: string -> string)
    requires i < |lines|
    ensures Mined(lines[..i + 1], keep, reshape) ==
      if keep(lines[i]) then Mined(lines[..i], keep, reshape) + [reshape(lines[i])] else Mined(lines[..i], keep, reshape)
  {
    assert lines[..i + 1][..i] == lines[..i];
  }

  /** Exactly the reshaped accepted lines are mined. */
  lemma {:induction false} MinedMembers(lines: seq<string>, keep: string -> bool, reshape: string -> string, x: string)
    ensures x in Mined(lines, keep, reshape) <==>
      exists i :: 0 <= i < |lines| && keep(lines[i]) && x == reshape(lines[i])
  {
    if lines != [] {
      var init := lines[..|lines| - 1];
      MinedMembers(init, keep, reshape, x);
      assert forall i :: 0 <= i < |init| ==> init[i] == lines[i];
    }
  }

  /** Nothing is mined exactly when no line is accepted. */
  lemma {:induction false} MinedEmpty(lines: seq<string>, keep: string -> bool, reshape: string -> string)
    ensures Mined(lines, keep, reshape) == [] <==> forall i :: 0 <= i < |lines| ==> !keep(lines[i])
  {
    if lines != [] {
      var init := lines[..|lines| - 1];
      MinedEmpty(init, keep, reshape);
      assert forall i :: 0 <= i < |init| ==> init[i] == lines[i];
    }
  }

  /** What a miner with a placeholder fallback returns. */
  function OrDefaults(found: seq<string>, defaults: seq<string>): (r: seq<string>)
    ensures found != [] ==> r == found
    ensures found == [] ==> r == defaults
  {
    if |found| > 0 then found else defaults
  }

  /** The fallback comes back when no line is accepted; otherwise the result holds exactly
      the reshaped accepted lines. */
  lemma MinedOrDefaults(lines: seq<string>, keep: string -> bool, reshape: string -> string, defaults: seq<string>)
    ensures (forall i :: 0 <= i < |lines| ==> !keep(lines[i])) ==> OrDefaults(Mined(lines, keep, reshape), defaults) == defaults
    ensures (exists i :: 0 <= i < |lines| && keep(lines[i])) ==>
      forall x :: x in OrDefaults(Mined(lines, keep, reshape), defaults) <==>
        exists i :: 0 <= i < |lines| && keep(lines[i]) && x == reshape(lines[i])
  {
    MinedEmpty(lines, keep, reshape);
    forall x {
      MinedMembers(lines, keep, reshape, x);
    }
  }

  /** The loop both extractors run: each line trimmed, tested and, when accepted,
      reshaped and pushed. */
  method MineLines(lines: seq<string>, keep: string -> bool, reshape: string -> string) returns (found: seq<string>)
    ensures found == Mined(TrimAll(lines), keep, reshape)
  {
    found := [];
    ghost var all := TrimAll(lines);
    for i := 0 to |lines|
      invariant found == Mined(all[..i], keep, reshape)
    {
      var trimmed := Trim(lines[i]);
      MinedStep(all, i, keep, reshape);
      if keep(trimmed) {
        found := found + [reshape(trimmed)];
      }
    }
    assert all[..|lines|] == all;
  }

  /** One of `words` occurs in `line`. */
  predicate MentionsAny(line: string, words: seq<string>) {
    exists w | w in words :: Contains(line, w)
  }

  // ---------------------------------------------------------------------------------
  // extractObservations
  // ---------------------------------------------------------------------------------

  const ObservationWords: seq<string> := ["observ", "visible", "présence", "absence"]

  const ObservationDefaults: seq<string> := [
    "Analyse de l'imagerie médicale en cours",
    "Évaluation des structures anatomiques",
    "Recherche d'anomalies pathologiques"
  ]

  predicate IsBullet(c: char) {
    c == '-' || c == '•' || c == '*'
  }

  /** `/^[-•*]\s+/`: a bullet and at least one blank. */
  predicate StartsWithBullet(line: string) {
    |line| >= 2 && IsBullet(line[0]) && IsSpace(line[1])
  }

  /** `/^\d+[\.)]\s+/`: digits, a `.` or `)`, and at least one blank. The digits cannot
      give any back, since neither `.` nor `)` is a digit. */
  predicate StartsWithNumber(line: string) {
    var k := RunEnd(line, 0, IsDigit);
    0 < k && k + 1 < |line| && (line[k] == '.' || line[k] == ')') && IsSpace(line[k + 1])
  }

  /** The test a trimmed line passes to become an observation. */
  predicate IsObservationLine(line: string) {
    StartsWithBullet(line) || StartsWithNumber(line) || MentionsAny(line, ObservationWords)
  }

  /** The class `[-•*\d\.)]` of the strip regex: one character of a list marker. */
  predicate IsMarkerChar(c: char) {
    IsBullet(c) || IsDigit(c) || c == '.' || c == ')'
  }

  /** `line.replace(/^[-•*\d\.)]\s*\/, '')`: one leading marker character and the blanks
      after it go; every other line is kept as it is. */
  function StripMarker(line: string): (r: string)
    ensures |r| <= |line| && r == line[|line| - |r|..]
    ensures line != [] && IsMarkerChar(line[0]) ==> |r| < |line| && AllSpace(line[1..|line| - |r|])
    ensures line != [] && IsMarkerChar(line[0]) ==> r == [] || !IsSpace(r[0])
    ensures (line == [] || !IsMarkerChar(line[0])) ==> r == line
  {
    if line != [] && IsMarkerChar(line[0]) then
      var e := RunEnd(line, 1, IsSpace);
      assert line[e..] == line[|line| - |line[e..]|..];
      line[e..]
    else line
  }

  /** Only the first marker character goes: of a two-digit number the second digit
      stays, so "12. x" becomes "2. x". */
  lemma StripMarkerKeepsSecondDigit(first: char, second: char, rest: string)
    requires IsDigit(first) && IsDigit(second)
    ensures StripMarker([first, second] + rest) == [second] + rest
  {
    var line := [first, second] + rest;
    assert !IsSpace(line[1]);
    assert RunEnd(line, 1, IsSpace) == 1;
    assert line[1..] == [second] + rest;
  }

  /** What `extractObservations` returns for the lines of the text. */
  function ObservationsFrom(lines: seq<string>): (r: seq<string>)
    ensures |r| > 0
  {
    OrDefaults(Mined(TrimAll(lines), IsObservationLine, StripMarker), ObservationDefaults)
  }

  /** What `extractObservations` returns. */
  function Observations(text: string): (r: seq<string>)
    ensures |r| > 0
  {
    ObservationsFrom(Split(text, '\n'))
  }

  /** The placeholders come back exactly when no trimmed line qualifies; otherwise every
      observation is a qualifying trimmed line with its marker stripped, and each such line
      gives one. */
  lemma ObservationsSpec(lines: seq<string>)
    ensures var trimmed := TrimAll(lines);
      && ((forall i :: 0 <= i < |trimmed| ==> !IsObservationLine(trimmed[i])) ==> ObservationsFrom(lines) == ObservationDefaults)
      && ((exists i :: 0 <= i < |trimmed| && IsObservationLine(trimmed[i])) ==>
            forall x :: x in ObservationsFrom(lines) <==>
              exists i :: 0 <= i < |trimmed| && IsObservationLine(trimmed[i]) && x == StripMarker(trimmed[i]))
  {
    MinedOrDefaults(TrimAll(lines), IsObservationLine, StripMarker, ObservationDefaults);
  }

  /** `extractObservations`: the mining loop, then the fallback. */
  method ExtractObservations(text: string) returns (observations: seq<string>)
    ensures observations == Observations(text)
    ensures |observations| > 0
  {
    var found := MineLines(Split(text, '\n'), IsObservationLine, StripMarker);
    if |found| > 0 {
      observations := found;
    } else {
      observations := ObservationDefaults;
    }
  }

  // ---------------------------------------------------------------------------------
  // extractRecommendations
  // ---------------------------------------------------------------------------------

  const RecommendationWords: seq<string> := ["recommand", "conseill", "suggère", "IRM", "contrôle", "suivi"]

  const RecommendationDefaults: seq<string> := [
    "Corrélation clinico-radiologique recommandée",
    "Suivi selon protocole établi"
  ]

  predicate IsRecommendationLine(line: string) {
    MentionsAny(line, RecommendationWords)
  }

  /** Recommendation lines are kept as they are. */
  function Verbatim(line: string): string {
    line
  }

  /** What `extractRecommendations` returns for the lines of the text. */
  function RecommendationsFrom(lines: seq<string>): (r: seq<string>)
    ensures |r| > 0
  {
    OrDefaults(Mined(TrimAll(lines), IsRecommendationLine, Verbatim), RecommendationDefaults)
  }

  /** What `extractRecommendations` returns. */
  function Recommendations(text: string): (r: seq<string>)
    ensures |r| > 0
  {
    RecommendationsFrom(Split(text, '\n'))
  }

  /** The placeholders come back exactly when no trimmed line mentions a keyword;
      otherwise the recommendations are exactly the trimmed lines that do. */
  lemma RecommendationsSpec(lines: seq<string>)
    ensures var trimmed := TrimAll(lines);
      && ((forall i :: 0 <= i < |trimmed| ==> !IsRecommendationLine(trimmed[i])) ==> RecommendationsFrom(lines) == RecommendationDefaults)
      && ((exists i :: 0 <= i < |trimmed| && IsRecommendationLine(trimmed[i])) ==>
            forall x :: x in RecommendationsFrom(lines) <==>
              exists i :: 0 <= i < |trimmed| && IsRecommendationLine(trimmed[i]) && x == trimmed[i])
  {
    MinedOrDefaults(TrimAll(lines), IsRecommendationLine, Verbatim, RecommendationDefaults);
  }

  /** `extractRecommendations`: the mining loop, then the fallback. */
  method ExtractRecommendations(text: string) returns (recommendations: seq<string>)
    ensures recommendations == Recommendations(text)
    ensures |recommendations| > 0
  {
    var found := MineLines(Split(text, '\n'), IsRecommendationLine, Verbatim);
    if |found| > 0 {
      recommendations := found;
    } else {
      recommendations := RecommendationDefaults;
    }
  }
}
