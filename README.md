# IRMGemma report pipeline in Dafny

IRMGemma sends medical images and a clinical context to a MedGemma model. It turns the
model's free-text reply into a structured report:

- a hypothesis;
- a confidence;
- observations;
- a severity;
- recommendations;
- the full text.

This project models, and proves properties of, the parts of that pipeline that compute
something:

- **Prompt** (`MedicalPrompt`): the medical prompt the backend sends, built by `createMedicalPrompt`.
- **Route core** (`Normalizer`): the core of the backend's `/api/analyze` route:
  - the missing-prediction error;
  - the probe that finds the reply text in the first prediction;
  - the greedy `{...}` JSON span;
  - the heuristic record built from the raw text;
  - the validation block that fills in and clamps every field.
- **Text heuristics** (`Diagnosis`, `Extractors`):
  - the three case-insensitive regular expressions of `extractMainDiagnosis`, written out as JavaScript's backtracking matcher runs them;
  - the line-mining loops of `extractObservations` and `extractRecommendations`.
- **Analysis page** (`Page`):
  - its own parser `parseApiResponse`;
  - `getSeverityColor`;
  - the prompts of `startAnalysis` and `sendMessage`.
- **Page state** (`Page.AnalysisPage`): a class over the page's React state. Its methods are the state updates:
  - adding, selecting and deleting images;
  - `deleteCurrentImage`;
  - the progress timer of `startAnalysis` with its success and error branches.
- **Upload service** (`UploadService`), the client-side service:
  - the image format and size checks;
  - the `onUploadProgress` percentage;
  - the whole sequence of progress values that `analyzeImages` reports.
- **Shared text primitives** (`JsText`): the JavaScript string operations the above rely on:
  - `trim` and the `\s` class;
  - `split` on one character;
  - `includes`;
  - the case folding of the `i` flag.

## Design notes

**JSON parsing.** `JSON.parse` is a parameter `parse: string -> Option<Candidate>`.
- It returns `None` where the library throws.
- Otherwise it returns the fields the route reads.
- A field that is absent, or that is not an array where the route asks `Array.isArray`, is `None`.

**Probed prediction.** The prediction is the `Prediction` datatype: a bare string, or an
object with optional `structValue` and `stringValue`. `JSON.stringify` of an object is
`{` + its members + `}`, with the members kept as opaque text.

**The diagnosis label is French.** Pattern 1 of `extractMainDiagnosis` looks for the
keywords `diagnostic`, `hypothèse` and `conclusion`. An English line `Diagnosis: ...`
contains none of them, so pattern 1 does not match it. Pattern 2 or 3 decides, or the
default applies.

**Pattern 1 without a colon.** The pattern's `[^:]*` runs past a label that has no colon,
and the greedy match backs off only as far as one character. So a keyword with no colon
after it captures only the last character that can start the capture, the last one other
than `.` and a line feed: `Conclusion ab` gives `b` (`Diagnosis.LabelWithoutColonExample`).

**The confidence rule is not idempotent.** A negative confidence is clamped to 0. On a
second validation, `0 || 85` reads that 0 as missing and yields 85.
`Normalizer.ValidateNearlyIdempotent` states exactly this.

**Progress values.** The scripted progress of `analyzeImages` never goes down exactly
when the upload values themselves do not go down, provided no event reports more bytes
than its total. Without that proviso it fails: one event of 2000 bytes of 1000 reports 80,
and the completion values that follow start at 70. Events whose `loaded` goes down can
still give non-decreasing values: 10 and then 9 bytes of 1000 both report 40. A failure while the images are still
being prepared happens before any `onProgress` call, so it reports nothing.

## Model

| member | source | states |
|---|---|---|
| JsText.TrimSpec | Backend/index.js:305 | `trim()` gives the piece of the text between a blank prefix and a blank suffix; it is empty exactly for an all-blank text |
| JsText.TrimUnique | Backend/index.js:305 | that piece is unique: any trimmed piece between a blank prefix and a blank suffix is the trim |
| JsText.TrimDropBlanks | Frontend/app/page.tsx:243 | blanks in front of a text do not change its trim |
| MedicalPrompt.ContextText | Backend/index.js:55 | the context is never empty: a missing or empty one becomes "Aucun contexte clinique fourni.", any other is used unchanged |
| MedicalPrompt.RecoverContextRoundTrip | Backend/index.js:51-87 | the context text sits between the fixed header and the section chosen by `hasImages`, and reading it back from the prompt gives it unchanged |
| MedicalPrompt.PromptDeterminesContext | Backend/index.js:51-87 | two prompts with the same `hasImages` are equal only when their defaulted contexts are equal: the prompt loses nothing of the context |
| MedicalPrompt.SectionFollowsImages | Backend/index.js:57-82 | for the same context, the prompt with images differs from the prompt without: `hasImages` always shows |
| Normalizer.Analyze | Backend/index.js:201-204 | the result is the failure "Aucune prédiction reçue de MedGemma" exactly when the prediction list is missing or empty; otherwise it is a well-formed report with a non-empty full report |
| Normalizer.AnalyzeFirstOnly | Backend/index.js:206 | predictions after the first have no effect on the result |
| Normalizer.FirstField | Backend/index.js:213-215 | the `\|\|` chain over the struct keys is present exactly when some key holds a non-empty string, and then it is the first such key's string |
| Normalizer.ResponseText | Backend/index.js:206-228 | the probed response text is never empty |
| Normalizer.ResponseTextOrder | Backend/index.js:209-228 | the probe order: `generated_text`, `text`, `response` of a struct, in that order (a struct makes `stringValue` irrelevant); then a truthy `stringValue`; then a non-empty bare string; the serialisation otherwise |
| Normalizer.Serialize | Backend/index.js:224-227 | the fallback serialisation of an object is wrapped in braces, and that of the empty string is `""` |
| Normalizer.BracesOrder | Backend/index.js:236 | some `{` comes before some `}` exactly when the first `{` comes before the last `}` |
| Normalizer.JsonSpan | Backend/index.js:233-241 | a span is found exactly when some `{` precedes some `}`; it runs from the first `{` to the last `}` |
| Normalizer.ValidConfidence | Backend/index.js:258 | the confidence is in [0,100]; a missing or zero value becomes 85; any other value is clamped to the range |
| Normalizer.ConfidenceExamples | Backend/index.js:258 | missing and 0 give 85, 150 gives 100, -5 gives 0, 73 and 100 stay |
| Normalizer.Validate | Backend/index.js:256-268 | field by field: the hypothesis is the truthy one or "Analyse en cours"; confidence as above; array fields kept, else re-mined from the response text; severity kept only when low/medium/high, else medium; a truthy full report kept, else the response text; the record is well-formed |
| Normalizer.ValidateNearlyIdempotent | Backend/index.js:256-268 | validating a validated record changes nothing except a confidence clamped up to 0, which becomes 85; that happens exactly for a negative input confidence |
| Normalizer.HeuristicHypothesis | Backend/index.js:246 | the heuristic hypothesis is never empty: it is the extracted diagnosis when that is non-empty, and "Analyse des images médicales" when no pattern matches or the capture is empty |
| Normalizer.Heuristic | Backend/index.js:245-252 | the heuristic record has the heuristic hypothesis, confidence 85, severity medium, the mined observations and recommendations, and the raw text as full report |
| Normalizer.HeuristicIsValid | Backend/index.js:245-268 | validation leaves every field of the heuristic record unchanged |
| Normalizer.Normalize | Backend/index.js:206-268 | the report for a prediction is well-formed, and its full report is never empty |
| Normalizer.NormalizeCascade | Backend/index.js:233-268 | the parsed JSON object is validated when the span exists and parses; otherwise the heuristic record is sent as built |
| Normalizer.NormalizeTextReport | Backend/index.js:233-268 | for a non-empty text, the report's full report is the parsed object's truthy `fullReport` when the span parses to one, and the text itself otherwise |
| Normalizer.NormalizeKeepsReport | Backend/index.js:206-268 | normalising a report's full report again returns that full report, unless its JSON span parses to an object with another truthy `fullReport` |
| Normalizer.NormalizeReportCanChange | Backend/index.js:233-265 | that exception happens: the text `{}` parsed to an object whose `fullReport` is "autre" gives the full report "autre" |
| Diagnosis.LabelledDiagnosisExists | Backend/index.js:286 | pattern 1 matches exactly when some keyword occurs and is followed, anywhere later, by a character other than `.` and line feed |
| Diagnosis.DiagnosisFromFinds | Backend/index.js:286 | the scan from a position finds a match exactly when some later position holds a keyword followed, anywhere later, by a capturable character |
| Diagnosis.DiagnosisFromLeftmost | Backend/index.js:286 | positions with no match are skipped: the scan returns the match at the first position that has one |
| Diagnosis.LabelledLine | Backend/index.js:286 | for a leftmost keyword, a label up to the first colon, and blanks, the capture is the value up to the next `.` or line feed |
| Diagnosis.LabelWithoutColon | Backend/index.js:286 | a text that starts with a keyword, has no colon after it, and ends in a capturable non-blank character: pattern 1 captures only that last character |
| Diagnosis.LabelWithoutColonExample | Backend/index.js:286 | `Conclusion ab` gives the capture `b` |
| Diagnosis.SuspicionPhrase | Backend/index.js:287 | a capture of pattern 2 is a non-empty piece of the text with no `.` or line feed |
| Diagnosis.LikelySentence | Backend/index.js:288 | a capture of pattern 3 is a non-empty piece free of `.` and line feed; it starts a line and is followed by the "évoqué"/"suspecté"/"probable" wording |
| Diagnosis.FirstCapture | Backend/index.js:291-297 | the loop's result over a list of patterns: the trimmed capture of the first pattern that matches, and null when none does |
| Diagnosis.MainDiagnosis | Backend/index.js:284-298 | the diagnosis is trimmed and holds no `.` or line feed; it is null exactly when none of the three patterns matches; otherwise it is the trimmed capture of pattern 1 if that matches, else of pattern 2 if that matches, else of pattern 3 |
| Diagnosis.ExtractMainDiagnosis | Backend/index.js:284-298 | the loop with early return computes `MainDiagnosis`: the trimmed capture of the first pattern that matches |
| Extractors.MineLines | Backend/index.js:302-314 | the loop pushes exactly the accepted trimmed lines, reshaped, in input order |
| Extractors.MinedAppend | Backend/index.js:304-313 | mining distributes over concatenation: lines keep their relative order |
| Extractors.MinedOrDefaults | Backend/index.js:316-320 | the placeholder list comes back exactly when no line is accepted; otherwise the result holds exactly the reshaped accepted lines |
| Extractors.StripMarker | Backend/index.js:312 | a leading marker character and all the blanks after it are removed, leaving a suffix of the line that does not start with a blank; other lines are kept |
| Extractors.StripMarkerKeepsSecondDigit | Backend/index.js:312 | only one marker character goes: "12. x" becomes "2. x" |
| Extractors.ObservationsFrom | Backend/index.js:302-320 | the observations mined from a list of lines are never empty |
| Extractors.Observations | Backend/index.js:316-320 | the observation list is never empty |
| Extractors.ObservationsSpec | Backend/index.js:300-321 | over the lines of the text: the three placeholders come back exactly when no trimmed line is a bullet, numbered or keyword line; otherwise each observation is such a line with its marker stripped, and each such line gives one |
| Extractors.ExtractObservations | Backend/index.js:300-321 | the loop and fallback compute `Observations` and never return an empty list |
| Extractors.RecommendationsFrom | Backend/index.js:325-342 | the recommendations mined from a list of lines are never empty |
| Extractors.Recommendations | Backend/index.js:339-342 | the recommendation list is never empty |
| Extractors.RecommendationsSpec | Backend/index.js:323-343 | over the lines of the text: the two placeholders come back exactly when no trimmed line mentions a keyword; otherwise the recommendations are exactly those trimmed lines |
| Extractors.ExtractRecommendations | Backend/index.js:323-343 | the loop and fallback compute `Recommendations` and never return an empty list |
| Page.TrimTruthy | Frontend/app/page.tsx:238 | a trimmed line is truthy exactly when the line has a non-blank character |
| Page.NonBlank | Frontend/app/page.tsx:238 | the kept lines are exactly the input's lines with a non-blank character, and no more of them than the input has |
| Page.NonBlankAppend | Frontend/app/page.tsx:238 | the filter works line by line, keeping the order of the lines |
| Page.NonBlankFirst | Frontend/app/page.tsx:238 | the first kept line is the first non-blank one |
| Page.StripBullet | Frontend/app/page.tsx:243 | one leading bullet and all the blanks after it are removed, leaving a suffix that does not start with a blank; other lines are kept |
| Page.CleanLine | Frontend/app/page.tsx:243 | a cleaned line is trimmed and a piece of the line; a line without a leading bullet is just trimmed, and a bulleted one is what follows the bullet, trimmed |
| Page.CleanObservations | Frontend/app/page.tsx:243 | never more lines than given; the results are exactly the non-empty cleaned lines; when no line cleans to nothing, the k-th result is the k-th line cleaned |
| Page.CleanObservationsTrimmed | Frontend/app/page.tsx:243 | every cleaned observation is non-empty and trimmed |
| Page.CleanObservationsAppend | Frontend/app/page.tsx:243 | cleaning works line by line, keeping the order of the lines |
| Page.ParseApiResponseShape | Frontend/app/page.tsx:236-247 | confidence 85, severity medium, the response as full report, a non-empty hypothesis, at most four non-empty trimmed observations |
| Page.ParseHypothesis | Frontend/app/page.tsx:238-241 | the hypothesis is the first line with a non-blank character, untrimmed; it is "Analyse générée par MedGemma" when every line is blank |
| Page.ParseObservations | Frontend/app/page.tsx:243 | over the non-blank lines: the observations are exactly the non-empty cleaned lines among the second to fifth; when none of those cleans to nothing, there are min(n-1, 4) of them, in order |
| Page.SeverityColor | Frontend/app/page.tsx:249-260 | high gets the red class, medium the yellow one, low the green one, and the result is always one of the four fixed class strings |
| Page.SeverityColorsDistinct | Frontend/app/page.tsx:249-260 | the gray colour is given exactly to texts other than high, medium and low; the three levels get pairwise different colours |
| Page.AnalysisPrompt | Frontend/app/page.tsx:167-169 | with a context, the prompt is the fixed prefix followed by the whole context; without one, it is the fixed request for a detailed diagnosis |
| Page.ChatPrompt | Frontend/app/page.tsx:191-208 | no prompt exactly for a blank message; the message itself before any analysis; after one, the previous hypothesis, then the question |
| Page.ChatPromptEndsWithInput | Frontend/app/page.tsx:205-208 | the user's message, untrimmed, always closes the prompt |
| Page.WithoutIdMembers | Frontend/app/page.tsx:118 | exactly the images with another id stay |
| Page.WithoutIdAppend | Frontend/app/page.tsx:118 | the filter keeps the relative order of the remaining images |
| Page.WithoutIdKeepsAll | Frontend/app/page.tsx:118 | an id no image has deletes nothing |
| Page.WithoutIdShrinks | Frontend/app/page.tsx:118 | the id of a listed image removes at least that image |
| Page.ClampIndex | Frontend/app/page.tsx:121-123 | an index still on the list is kept; an index past the end becomes `max(0, count - 1)`, the last image or 0 for an empty list |
| Page.Tick | Frontend/app/page.tsx:152-158 | one tick adds 5 below 90 and pins the bar at 90 from 90 on |
| Page.TickFromZero | Frontend/app/page.tsx:151-159 | from 0, after n ticks the bar is at min(5n, 90) |
| Page.TickNBounds | Frontend/app/page.tsx:151-159 | the bar stays a multiple of 5 in [0,100]; it never passes 90 from at most 90, and sits at 90 after any tick from 90 or more |
| Page.AnalysisPage.constructor | Frontend/app/page.tsx:62-78 | the initial hook values: no images, index 0, progress 0, every flag false, no result and no error |
| Page.AnalysisPage.AddImage | Frontend/app/page.tsx:80-98 | a file is appended exactly when its type starts with "image/"; nothing else changes |
| Page.AnalysisPage.SelectImage | Frontend/app/page.tsx:375 | a thumbnail click sets the index and changes nothing else |
| Page.AnalysisPage.DeleteImage | Frontend/app/page.tsx:116-134 | the list is filtered by id; the index is clamped onto it; the analysis flags are cleared exactly when it becomes empty; the state stays valid |
| Page.AnalysisPage.DeleteCurrentImage | Frontend/app/page.tsx:136-140 | nothing changes on an empty list; otherwise the image under the index goes, the list gets strictly shorter, the index is clamped, and the analysis flags are cleared exactly when the list becomes empty |
| Page.AnalysisPage.StartAnalysis | Frontend/app/page.tsx:142-169 | nothing happens without images; otherwise the analysis flags are set, the bar is reset to 0, the timer is started, the error is cleared, and the prompt is built from the context |
| Page.AnalysisPage.ProgressTick | Frontend/app/page.tsx:151-159 | a running timer ticks the bar, and stops when that tick found the bar at 90 or more; nothing else changes |
| Page.AnalysisPage.RunProgress | Frontend/app/page.tsx:151-159 | n firings of a running timer move the bar as n ticks, and the timer is still running exactly when none of those firings found the bar at 90 or more; a stopped timer leaves the bar where it is; the other state is unchanged |
| Page.AnalysisPage.CompleteAnalysis | Frontend/app/page.tsx:173-188 | the parsed report is stored, the bar is at 100, the analysis is complete, and the timer has stopped |
| Page.AnalysisPage.FailAnalysis | Frontend/app/page.tsx:181-188 | the error message is shown (the fixed French text for a non-`Error`), the bar is back at 0, and the timer has stopped |
| UploadService.IsValidImageFormat | Frontend/lib/medgemma-service.ts:175-178 | a type passes exactly when it is one of image/jpeg, image/jpg, image/png, image/gif and image/bmp; every type that passes also passes the page's `image/` filter |
| UploadService.ValidFormatsAreImages | Frontend/lib/medgemma-service.ts:175-178 | the page's `image/` filter is wider: `image/webp` is accepted by the page and refused by the service |
| UploadService.IsValidImageSize | Frontend/lib/medgemma-service.ts:183-186 | a size passes exactly when it is at most `maxSizeMB` mebibytes, the boundary included; an empty file always passes a non-negative limit |
| UploadService.SizeLimitMonotone | Frontend/lib/medgemma-service.ts:183-186 | a smaller file passes whenever a larger one does, and a higher limit keeps every file a lower one lets through |
| UploadService.DefaultSizeLimit | Frontend/lib/medgemma-service.ts:183-186 | with the default limit, a size passes exactly when it fits the backend's 50 MiB upload cap (52,428,800 bytes passes, one byte more does not) |
| UploadService.RoundDiv | Frontend/lib/medgemma-service.ts:89 | `Math.round(n / d)`: the result r is the integer with n/d - 1/2 < r <= n/d + 1/2, so halves round up |
| UploadService.UploadProgress | Frontend/lib/medgemma-service.ts:87-91 | nothing is reported without a callback or without a non-zero total; otherwise 40 plus the rounded share of 20 |
| UploadService.UploadProgressBounds | Frontend/lib/medgemma-service.ts:87-91 | while `loaded` does not exceed `total`, the reported value lies in [40,60] |
| UploadService.UploadProgressMonotone | Frontend/lib/medgemma-service.ts:89 | more bytes never report less progress |
| UploadService.UploadValues | Frontend/lib/medgemma-service.ts:87-91 | at most one value per upload event, and none without a callback; when every event reports, the k-th value is the k-th event's percentage |
| UploadService.UploadValuesMembers | Frontend/lib/medgemma-service.ts:87-91 | a value is reported exactly when some event gives that percentage |
| UploadService.UploadValuesAppend | Frontend/lib/medgemma-service.ts:87-91 | the values of two runs of events follow each other in order |
| UploadService.UploadValuesBounds | Frontend/lib/medgemma-service.ts:87-91 | every value reported by bounded upload events lies in [40,60] |
| UploadService.ProgressSequence | Frontend/lib/medgemma-service.ts:62-105 | nothing is reported without a callback or after a failure while preparing; otherwise 0, 10, 20, 30, 40, then the upload values, and on success 70, 85, 95, 100, ending at 100 |
| UploadService.ProgressSequenceMonotone | Frontend/lib/medgemma-service.ts:62-105 | for upload events with `loaded` at most `total`, and any outcome but a failure while preparing the images, the whole reported sequence never goes down exactly when the upload values never go down |
| UploadService.ProgressSequenceRises | Frontend/lib/medgemma-service.ts:62-105 | with events within their totals, upload values that never go down make the whole sequence never go down, whatever the outcome |
| UploadService.ProgressSequenceShowsValues | Frontend/lib/medgemma-service.ts:62-105 | once the request is sent, a sequence that never goes down has upload values that never go down |
| UploadService.SteadyUploadValues | Frontend/lib/medgemma-service.ts:87-91 | with one fixed non-zero total and `loaded` never going down, the upload values never go down |
| UploadService.SteadyUploadProgress | Frontend/lib/medgemma-service.ts:62-105 | with one fixed non-zero total and `loaded` rising up to it, the whole reported progress never goes down |
| UploadService.ScriptedValues | Frontend/lib/medgemma-service.ts:62-105 | a completed call with no upload event reports 0, 10, 20, 30, 40, 70, 85, 95, 100 |

## Left out

- The network and the model are left out: Express, multer, the Vertex AI client, the prediction request and the development-mode mock analysis. The model starts from the prediction list the client returns.
- `JSON.parse` is a parameter. JSON values other than strings, integers and arrays of strings are not modelled (a numeric `hypothesis`, a string `confidence`), and neither are fractional or NaN confidences.
- A prediction that is `null` or `undefined` makes the route throw a `TypeError`. That path is not modelled.
- `JSON.stringify` escaping is not modelled. An object's members are kept as opaque text, and a bare string reaches the serialisation only when it is empty.
- The `i` flag folds ASCII and Latin-1 letters only. Text is a sequence of Unicode scalar values, not UTF-16 code units.
- MedicalPrompt.CreateMedicalPrompt: its contract is stated through `RecoverContextRoundTrip`, `PromptDeterminesContext` and `SectionFollowsImages`. That two different contexts with different `hasImages` never give the same prompt is not proved.
- Page.ParseApiResponse: its contract is stated by `ParseApiResponseShape`, `ParseHypothesis` and `ParseObservations`.
- React rendering, `FileReader`, `fetch` of the image blob, timers and their 200 ms period are not modelled. `RunProgress` counts firings; it does not measure time.
- The chat message list and the answer of the model are not modelled: `sendMessage` is modelled only up to its prompt.
- The other client `Frontend/lib/api.ts` and the Python service under `gemmaApi/` are not part of this model.
- UploadService.RoundDiv: it models `n / d` as the exact fraction. A double holds that quotient exactly only for values up to about 2^53, so the model ignores rounding of the division for totals of about 10^14 bytes and more.
- `analyzeImages` response handling and error messages are not modelled: only its progress values are.
