/**
 * The report normaliser of the `/api/analyze` route (Backend/index.js): take the first
 * prediction, probe it for the model's text, try the greedy `{...}` JSON span, fall back to
 * the line-mining heuristics, and validate every field of the result.
 *
 * `JSON.parse` is a parameter `parse`: it returns `None` where the library throws, and
 * otherwise the fields of the parsed object that the route reads.
 */
module Normalizer {
  import opened Wrappers
  import opened JsText
  import Diagnosis
  import Extractors

  // ---------------------------------------------------------------------------------
  // Predictions
  // ---------------------------------------------------------------------------------

  /** A field of the protobuf struct: a `Value` whose `stringValue` may be set. */
  datatype FieldValue = FieldValue(stringValue: Option<string>)

  /** A protobuf `Struct`, whose `fields` may be missing. */
  datatype Struct = Struct(fields: Option<map<string, FieldValue>>)

  /** `predictions[0]`: a bare string, or an object that may carry `structValue` and
      `stringValue`; `members` is the serialised text of the object's members. */
  datatype Prediction =
    | Text(text: string)
    | Value(structValue: Option<Struct>, stringValue: Option<string>, members: string)

  /** `JSON.stringify(prediction)`. A bare string only reaches it when empty, so no
      character escaping is needed. */
  function Serialize(p: Prediction): (r: string)
    ensures |r| >= 2
    ensures p.Value? ==> r[0] == '{' && r[|r| - 1] == '}'
    ensures p == Text([]) ==> r == "\"\""
  {
    match p
    case Text(s) => "\"" + s + "\""
    case Value(_, _, members) => "{" + members + "}"
  }

  /** A JavaScript value that is truthy: a string that is present and non-empty. */
  predicate Truthy(s: Option<string>) {
    s.Some? && s.value != []
  }

  /** `fields?.<key>?.stringValue`. */
  function FieldString(st: Struct, key: string): Option<string> {
    if st.fields.Some? && key in st.fields.value then st.fields.value[key].stringValue else None
  }

  /** The struct keys probed for the reply, in order. */
  const TextKeys: seq<string> := ["generated_text", "text", "response"]

  /** The `||` chain over `keys`: the first truthy field. */
  function FirstField(st: Struct, keys: seq<string>): (r: Option<string>)
    ensures r.Some? <==> exists k | 0 <= k < |keys| :: Truthy(FieldString(st, keys[k]))
    ensures r.Some? ==> exists k | 0 <= k < |keys| ::
      (r == FieldString(st, keys[k]) && r.value != [] && forall l | 0 <= l < k :: !Truthy(FieldString(st, keys[l])))
  {
    if keys == [] then None
    else if Truthy(FieldString(st, keys[0])) then FieldString(st, keys[0])
    else
      var r := FirstField(st, keys[1..]);
      assert forall k | 1 <= k < |keys| :: keys[1..][k - 1] == keys[k];
      if r.Some? then
        var k :| 0 <= k < |keys[1..]| && r == FieldString(st, keys[1..][k]) &&
          r.value != [] && forall l | 0 <= l < k :: !Truthy(FieldString(st, keys[1..][l]));
        assert r == FieldString(st, keys[k + 1]);
        assert forall l | 0 <= l < k + 1 :: !Truthy(FieldString(st, keys[l])) by {
          forall l | 0 <= l < k + 1
            ensures !Truthy(FieldString(st, keys[l]))
          {
            if l > 0 {
              assert keys[l] == keys[1..][l - 1];
            }
          }
        }
        r
      else
        r
  }

  /** The text the probe finds before the serialisation fallback: the struct keys when
      `structValue` is set, else `stringValue`, else the prediction itself as a string. */
  function ProbedText(p: Prediction): (r: Option<string>)
    ensures r.Some? ==> r.value != []
  {
    match p
    case Value(Some(st), _, _) => FirstField(st, TextKeys)
    case Value(None, sv, _) => if Truthy(sv) then sv else None
    case Text(s) => if s != [] then Some(s) else None
  }

  /** `responseText` after the fallback: never empty. */
  function ResponseText(p: Prediction): (r: string)
    ensures r != []
  {
    match ProbedText(p)
    case Some(t) => t
    case None => Serialize(p)
  }

  /** The probe order: `generated_text`, `text`, `response`; a struct makes `stringValue`
      irrelevant; then `stringValue`, then the bare string; the serialisation otherwise. */
  lemma ResponseTextOrder(p: Prediction)
    ensures p.Value? && p.structValue.Some? ==>
      var st := p.structValue.value;
      && (Truthy(FieldString(st, "generated_text")) ==> ResponseText(p) == FieldString(st, "generated_text").value)
      && (!Truthy(FieldString(st, "generated_text")) && Truthy(FieldString(st, "text")) ==>
            ResponseText(p) == FieldString(st, "text").value)
      && (!Truthy(FieldString(st, "generated_text")) && !Truthy(FieldString(st, "text")) && Truthy(FieldString(st, "response")) ==>
            ResponseText(p) == FieldString(st, "response").value)
      && (!Truthy(FieldString(st, "generated_text")) && !Truthy(FieldString(st, "text")) && !Truthy(FieldString(st, "response")) ==>
            ResponseText(p) == Serialize(p))
      && forall sv :: ResponseText(Value(Some(st), sv, p.members)) == ResponseText(p)
    ensures p.Value? && p.structValue.None? ==>
      ResponseText(p) == if Truthy(p.stringValue) then p.stringValue.value else Serialize(p)
    ensures p.Text? ==> ResponseText(p) == if p.text != [] then p.text else "\"\""
  {
    if p.Value? && p.structValue.Some? {
      var st := p.structValue.value;
      var r := FirstField(st, TextKeys);
      if r.Some? {
        var k :| 0 <= k < |TextKeys| && r == FieldString(st, TextKeys[k]) &&
          r.value != [] && forall l | 0 <= l < k :: !Truthy(FieldString(st, TextKeys[l]));
        assert TextKeys[0] == "generated_text" && TextKeys[1] == "text" && TextKeys[2] == "response";
      } else {
        assert !Truthy(FieldString(st, TextKeys[0])) && !Truthy(FieldString(st, TextKeys[1])) &&
          !Truthy(FieldString(st, TextKeys[2]));
      }
    }
  }

  // ---------------------------------------------------------------------------------
  // The JSON span
  // ---------------------------------------------------------------------------------

  /** Some `{` comes before some `}`. */
  ghost predicate HasBraces(t: string) {
    exists i, j :: 0 <= i < j < |t| && t[i] == '{' && t[j] == '}'
  }

  /** Some `{` precedes some `}` exactly when the first `{` precedes the last `}`. */
  lemma BracesOrder(t: string)
    ensures HasBraces(t) <==> '{' in t && '}' in t && IndexOf(t, '{') < LastIndexOf(t, '}')
  {
    if HasBraces(t) {
      var i, j :| 0 <= i < j < |t| && t[i] == '{' && t[j] == '}';
      assert IndexOf(t, '{') <= i && j <= LastIndexOf(t, '}');
    }
  }

  /** `t.match(/\{[\s\S]*\}/)`: from the first `{` to the last `}`, when that `}` comes after
      it; the greedy run backs off to the last `}` and no later start can do better. */
  function JsonSpan(t: string): (r: Option<string>)
    ensures r.Some? <==> HasBraces(t)
    ensures r.Some? ==> exists i, j ::
      (0 <= i < j < |t| && r.value == t[i..j + 1] && '{' !in t[..i] && t[i] == '{' && t[j] == '}' && '}' !in t[j + 1..])
  {
    if '{' in t && '}' in t && IndexOf(t, '{') < LastIndexOf(t, '}') then
      Some(t[IndexOf(t, '{')..LastIndexOf(t, '}') + 1])
    else
      BracesOrder(t);
      None
  }

  // ---------------------------------------------------------------------------------
  // Candidates and validation
  // ---------------------------------------------------------------------------------

  /** The fields the route reads from `analysisResult`; a missing field is `None`. */
  datatype Candidate = Candidate(
    hypothesis: Option<string>,
    confidence: Option<int>,
    observations: Option<seq<string>>,
    severity: Option<string>,
    recommendations: Option<seq<string>>,
    fullReport: Option<string>)

  /** The validated record the route sends back. */
  datatype Analysis = Analysis(
    hypothesis: string,
    confidence: int,
    observations: seq<string>,
    severity: string,
    recommendations: seq<string>,
    fullReport: string)

  const Severities: seq<string> := ["low", "medium", "high"]

  const DefaultConfidence := 85

  /** The shape every validated record has. */
  ghost predicate WellFormed(a: Analysis, responseText: string) {
    && a.hypothesis != []
    && 0 <= a.confidence <= 100
    && a.severity in Severities
    && (a.fullReport != [] || responseText == [])
  }

  /** `Math.min(100, Math.max(0, confidence || 85))`. */
  function ValidConfidence(c: Option<int>): (r: int)
    ensures 0 <= r <= 100
    ensures (c.None? || c.value == 0) ==> r == DefaultConfidence
    ensures c.Some? && c.value != 0 ==> r == if c.value < 0 then 0 else if c.value > 100 then 100 else c.value
  {
    var v := if c.Some? && c.value != 0 then c.value else DefaultConfidence;
    if v > 100 then 100 else if v < 0 then 0 else v
  }

  /** The quirks and corner values of the confidence rule. */
  lemma ConfidenceExamples()
    ensures ValidConfidence(None) == 85 && ValidConfidence(Some(0)) == 85
    ensures ValidConfidence(Some(150)) == 100 && ValidConfidence(Some(-5)) == 0
    ensures ValidConfidence(Some(73)) == 73 && ValidConfidence(Some(100)) == 100
  {
  }

  /** The validation block. */
  function Validate(c: Candidate, responseText: string): (a: Analysis)
    ensures WellFormed(a, responseText)
    ensures a.hypothesis == if Truthy(c.hypothesis) then c.hypothesis.value else "Analyse en cours"
    ensures a.confidence == ValidConfidence(c.confidence)
    ensures c.observations.Some? ==> a.observations == c.observations.value
    ensures c.observations.None? ==> a.observations == Extractors.Observations(responseText)
    ensures c.severity.Some? && c.severity.value in Severities ==> a.severity == c.severity.value
    ensures (c.severity.None? || c.severity.value !in Severities) ==> a.severity == "medium"
    ensures c.recommendations.Some? ==> a.recommendations == c.recommendations.value
    ensures c.recommendations.None? ==> a.recommendations == Extractors.Recommendations(responseText)
    ensures a.fullReport == if Truthy(c.fullReport) then c.fullReport.value else responseText
  {
    Analysis(
      if Truthy(c.hypothesis) then c.hypothesis.value else "Analyse en cours",
      ValidConfidence(c.confidence),
      if c.observations.Some? then c.observations.value else Extractors.Observations(responseText),
      if c.severity.Some? && c.severity.value in Severities then c.severity.value else "medium",
      if c.recommendations.Some? then c.recommendations.value else Extractors.Recommendations(responseText),
      if Truthy(c.fullReport) then c.fullReport.value else responseText)
  }

  /** A validated record read back as a candidate. */
  function AsCandidate(a: Analysis): Candidate {
    Candidate(Some(a.hypothesis), Some(a.confidence), Some(a.observations), Some(a.severity),
      Some(a.recommendations), Some(a.fullReport))
  }

  /** Validating a validated record changes at most its confidence, and only a confidence
      clamped up to 0, which the `|| 85` then reads as missing. */
  lemma ValidateNearlyIdempotent(c: Candidate, responseText: string)
    ensures var a := Validate(c, responseText);
      && Validate(AsCandidate(a), responseText) == a.(confidence := if a.confidence == 0 then DefaultConfidence else a.confidence)
      && (a.confidence == 0 <==> c.confidence.Some? && c.confidence.value < 0)
  {
  }

  // ---------------------------------------------------------------------------------
  // The heuristic path
  // ---------------------------------------------------------------------------------

  /** The hypothesis of the heuristic record: the diagnosis when truthy, the fixed text when
      no pattern matches or the capture trims to nothing. */
  function HeuristicHypothesis(t: string): (r: string)
    ensures r != []
    ensures Diagnosis.MainDiagnosis(t).Some? && Diagnosis.MainDiagnosis(t).value != [] ==> r == Diagnosis.MainDiagnosis(t).value
    ensures Diagnosis.MainDiagnosis(t).None? || Diagnosis.MainDiagnosis(t).value == [] ==> r == "Analyse des images médicales"
  {
    match Diagnosis.MainDiagnosis(t)
    case Some(d) => if d != [] then d else "Analyse des images médicales"
    case None => "Analyse des images médicales"
  }

  /** The record built from the raw text when there is no usable JSON. */
  function Heuristic(t: string): (c: Candidate)
    ensures c.hypothesis == Some(HeuristicHypothesis(t))
    ensures c.confidence == Some(DefaultConfidence) && c.severity == Some("medium")
    ensures c.fullReport == Some(t)
    ensures c.observations == Some(Extractors.Observations(t))
    ensures c.recommendations == Some(Extractors.Recommendations(t))
  {
    Candidate(Some(HeuristicHypothesis(t)), Some(DefaultConfidence), Some(Extractors.Observations(t)),
      Some("medium"), Some(Extractors.Recommendations(t)), Some(t))
  }

  /** Validation leaves every field of the heuristic record as it is. */
  lemma HeuristicIsValid(t: string)
    ensures AsCandidate(Validate(Heuristic(t), t)) == Heuristic(t)
  {
    assert "medium" == Severities[1];
  }

  // ---------------------------------------------------------------------------------
  // The route's core
  // ---------------------------------------------------------------------------------

  /** The candidate the route validates: the parsed JSON span, or the heuristic record
      when there is no span or the parser throws. */
  function ChosenCandidate(t: string, parse: string -> Option<Candidate>): Candidate {
    match JsonSpan(t)
    case None => Heuristic(t)
    case Some(j) => parse(j).GetOr(Heuristic(t))
  }

  /** The report for one prediction. */
  function Normalize(p: Prediction, parse: string -> Option<Candidate>): (a: Analysis)
    ensures WellFormed(a, ResponseText(p))
    ensures a.fullReport != []
  {
    var t := ResponseText(p);
    Validate(ChosenCandidate(t, parse), t)
  }

  /** The JSON object wins when the span parses; otherwise the heuristic record is sent
      exactly as built. */
  lemma NormalizeCascade(p: Prediction, parse: string -> Option<Candidate>)
    ensures var t := ResponseText(p);
      && (JsonSpan(t).Some? && parse(JsonSpan(t).value).Some? ==>
            Normalize(p, parse) == Validate(parse(JsonSpan(t).value).value, t))
      && (JsonSpan(t).None? || parse(JsonSpan(t).value).None? ==>
            AsCandidate(Normalize(p, parse)) == Heuristic(t))
  {
    HeuristicIsValid(ResponseText(p));
  }

  /** The full report of the report for a text: the parsed object's truthy `fullReport`
      when the span parses to one, and the text itself otherwise. */
  lemma NormalizeTextReport(t: string, parse: string -> Option<Candidate>)
    requires t != []
    ensures var span := JsonSpan(t);
      Normalize(Text(t), parse).fullReport ==
        if span.Some? && parse(span.value).Some? && Truthy(parse(span.value).value.fullReport)
        then parse(span.value).value.fullReport.value
        else t
  {
    assert ResponseText(Text(t)) == t;
  }

  /** Normalising the full report of a report again gives the same full report, unless the
      JSON span of that text parses to an object carrying a different truthy `fullReport`. */
  lemma NormalizeKeepsReport(p: Prediction, parse: string -> Option<Candidate>)
    ensures var t := Normalize(p, parse).fullReport;
      var span := JsonSpan(t);
      (span.None? || parse(span.value).None? || !Truthy(parse(span.value).value.fullReport) ||
       parse(span.value).value.fullReport == Some(t)) ==>
        Normalize(Text(t), parse).fullReport == t
  {
    NormalizeTextReport(Normalize(p, parse).fullReport, parse);
  }

  /** The exception is real: a text whose span parses to an object with another
      `fullReport` is replaced by it. */
  lemma NormalizeReportCanChange()
    ensures Normalize(Text("{}"), _ => Some(Candidate(None, None, None, None, None, Some("autre")))).fullReport == "autre"
  {
    var parse: string -> Option<Candidate> := _ => Some(Candidate(None, None, None, None, None, Some("autre")));
    var t := "{}";
    assert t[0] == '{' && t[1] == '}';
    assert IndexOf(t, '{') == 0 && LastIndexOf(t, '}') == 1;
    assert t[0..2] == t;
    assert JsonSpan(t) == Some(t);
    NormalizeTextReport(t, parse);
  }

  const NoPredictionError := "Aucune prédiction reçue de MedGemma"

  /** The route from the prediction list to the report: an error when the list is missing or
      empty, otherwise the normalised first prediction. */
  function Analyze(predictions: Option<seq<Prediction>>, parse: string -> Option<Candidate>): (r: Result<Analysis, string>)
    ensures r.Failure? <==> predictions.None? || predictions.value == []
    ensures r.Failure? ==> r.error == NoPredictionError
    ensures r.Success? ==> WellFormed(r.value, ResponseText(predictions.value[0])) && r.value.fullReport != []
  {
    if predictions.None? || |predictions.value| == 0 then Failure(NoPredictionError)
    else Success(Normalize(predictions.value[0], parse))
  }

  /** Only the first prediction matters. */
  lemma AnalyzeFirstOnly(p: Prediction, rest: seq<Prediction>, rest': seq<Prediction>, parse: string -> Option<Candidate>)
    ensures Analyze(Some([p] + rest), parse) == Analyze(Some([p] + rest'), parse) == Success(Normalize(p, parse))
  {
  }
}
