/**
 * The analysis page (Frontend/app/page.tsx): its own parser of the model's free text,
 * the severity badge colours, the prompts it sends, and the state it keeps about the
 * uploaded images and the progress of an analysis.
 */
module Page {
  import opened Wrappers
  import opened JsText
  import Extractors

  // ---------------------------------------------------------------------------------
  // parseApiResponse
  // ---------------------------------------------------------------------------------

  /** The page's report: the backend's record without recommendations. */
  datatype PageAnalysis = PageAnalysis(
    hypothesis: string,
    confidence: int,
    observations: seq<string>,
    severity: string,
    fullReport: string)

  const DefaultHypothesis: string := "Analyse générée par MedGemma"

  /** Some character of `line` is not white space. */
  predicate IsNonBlank(line: string) {
    exists k | 0 <= k < |line| :: !IsSpace(line[k])
  }

  /** `line.trim()` is truthy exactly for the non-blank lines. */
  lemma TrimTruthy(line: string)
    ensures Trim(line) != [] <==> IsNonBlank(line)
  {
    TrimSpec(line);
  }

  /** `lines.filter(line => line.trim())`, by `TrimTruthy`: the lines with some non-blank
      character, in order and untrimmed. */
  function NonBlank(lines: seq<string>): (r: seq<string>)
    ensures |r| <= |lines|
    ensures forall k :: 0 <= k < |r| ==> IsNonBlank(r[k]) && r[k] in lines
    ensures forall x :: x in r <==> x in lines && IsNonBlank(x)
  {
    if lines == [] then []
    else
      assert lines == [lines[0]] + lines[1..];
      (if IsNonBlank(lines[0]) then [lines[0]] else []) + NonBlank(lines[1..])
  }

  /** The filter works line by line: the kept lines keep their order. */
  lemma {:induction false} NonBlankAppend(a: seq<string>, b: seq<string>)
    ensures NonBlank(a + b) == NonBlank(a) + NonBlank(b)
  {
    if a != [] {
      assert (a + b)[1..] == a[1..] + b;
      NonBlankAppend(a[1..], b);
    } else {
      assert a + b == b;
    }
  }

  /** The first kept line is the first non-blank one; nothing is kept when all are blank. */
  lemma {:induction false} NonBlankFirst(lines: seq<string>, k: nat)
    requires k < |lines| && IsNonBlank(lines[k])
    requires forall j :: 0 <= j < k ==> !IsNonBlank(lines[j])
    ensures NonBlank(lines) != [] && NonBlank(lines)[0] == lines[k]
  {
    if k > 0 {
      NonBlankFirst(lines[1..], k - 1);
    }
  }

  lemma {:induction false} NonBlankNone(lines: seq<string>)
    requires forall j :: 0 <= j < |lines| ==> !IsNonBlank(lines[j])
    ensures NonBlank(lines) == []
  {
    if lines != [] {
      NonBlankNone(lines[1..]);
    }
  }

  /** `line.replace(/^[-•*]\s*\/, '')`: one leading bullet and all the blanks after it. */
  function StripBullet(line: string): (r: string)
    ensures |r| <= |line| && r == line[|line| - |r|..]
    ensures line != [] && Extractors.IsBullet(line[0]) ==> |r| < |line| && AllSpace(line[1..|line| - |r|])
    ensures line != [] && Extractors.IsBullet(line[0]) ==> r == [] || !IsSpace(r[0])
    ensures (line == [] || !Extractors.IsBullet(line[0])) ==> r == line
  {
    if line != [] && Extractors.IsBullet(line[0]) then
      var e := RunEnd(line, 1, IsSpace);
      assert line[e..] == line[|line| - |line[e..]|..];
      line[e..]
    else line
  }

  /** `line.replace(/^[-•*]\s*\/, '').trim()`: a trimmed piece of the line; the line
      trimmed when it has no bullet, and what follows the bullet, trimmed, otherwise. */
  function CleanLine(line: string): (r: string)
    ensures IsTrimmed(r)
    ensures IsSliceOf(r, line)
    ensures (line == [] || !Extractors.IsBullet(line[0])) ==> r == Trim(line)
    ensures line != [] && Extractors.IsBullet(line[0]) ==> IsSliceOf(r, line[1..])
    ensures line != [] && Extractors.IsBullet(line[0]) ==> r == Trim(line[1..])
  {
    CleanLineSlice(line);
    Trim(StripBullet(line))
  }

  lemma CleanLineSlice(line: string)
    ensures IsSliceOf(Trim(StripBullet(line)), line)
    ensures line != [] && Extractors.IsBullet(line[0]) ==> IsSliceOf(Trim(StripBullet(line)), line[1..])
    ensures line != [] && Extractors.IsBullet(line[0]) ==> Trim(StripBullet(line)) == Trim(line[1..])
  {
    var stripped := StripBullet(line);
    TrimSpec(stripped);
    SuffixSlice(line, stripped, Trim(stripped));
    if line != [] && Extractors.IsBullet(line[0]) {
      BlanksThenRest(line, stripped);
    }
  }

  /** What is left after the first character and a run of blanks trims like everything
      after the first character. */
  lemma BlanksThenRest(line: string, rest: string)
    requires |rest| < |line| && rest == line[|line| - |rest|..] && AllSpace(line[1..|line| - |rest|])
    ensures Trim(rest) == Trim(line[1..])
  {
    var e := |line| - |rest| - 1;
    assert line[1..][e..] == rest;
    assert line[1..][..e] == line[1..|line| - |rest|];
    TrimDropBlanks(line[1..], e);
  }

  /** A slice of a suffix is a slice of the whole, and of the whole minus its first
      character when the suffix is shorter. */
  lemma SuffixSlice(line: string, suffix: string, s: string)
    requires |suffix| <= |line| && suffix == line[|line| - |suffix|..] && IsSliceOf(s, suffix)
    ensures IsSliceOf(s, line)
    ensures |suffix| < |line| ==> IsSliceOf(s, line[1..])
  {
    var i, j :| 0 <= i <= j <= |suffix| && suffix[i..j] == s;
    var off := |line| - |suffix|;
    assert line[off + i..off + j] == s;
    if |suffix| < |line| {
      assert line[1..][off - 1 + i..off - 1 + j] == s;
    }
  }

  /** `lines.map(f)`. */
  function Map(lines: seq<string>, f: string -> string): (r: seq<string>)
    ensures |r| == |lines| && forall k :: 0 <= k < |lines| ==> r[k] == f(lines[k])
  {
    seq(|lines|, k requires 0 <= k < |lines| => f(lines[k]))
  }

  lemma MapAppend(a: seq<string>, b: seq<string>, f: string -> string)
    ensures Map(a + b, f) == Map(a, f) + Map(b, f)
  {
    assert forall k :: 0 <= k < |a + b| ==> Map(a + b, f)[k] == (Map(a, f) + Map(b, f))[k];
  }

  /** `.filter(Boolean)` on strings: the non-empty ones, in order. */
  function DropEmpty(xs: seq<string>): (r: seq<string>)
    ensures |r| <= |xs|
    ensures forall x :: x in r <==> x in xs && x != []
    ensures (forall k :: 0 <= k < |xs| ==> xs[k] != []) ==> r == xs
  {
    if xs == [] then []
    else
      assert xs == [xs[0]] + xs[1..];
      (if xs[0] != [] then [xs[0]] else []) + DropEmpty(xs[1..])
  }

  /** Filtering works element by element: what stays keeps its order. */
  lemma {:induction false} DropEmptyAppend(a: seq<string>, b: seq<string>)
    ensures DropEmpty(a + b) == DropEmpty(a) + DropEmpty(b)
  {
    if a != [] {
      var head := if a[0] != [] then [a[0]] else [];
      assert (a + b)[0] == a[0] && (a + b)[1..] == a[1..] + b;
      assert DropEmpty(a + b) == head + DropEmpty(a[1..] + b);
      assert DropEmpty(a) == head + DropEmpty(a[1..]);
      DropEmptyAppend(a[1..], b);
    } else {
      assert a + b == b;
    }
  }

  /** The observation lines cleaned and the empty ones dropped: the survivors are exactly
      the non-empty cleaned lines, and when none is empty, the cleaned lines one for one. */
  function CleanObservations(lines: seq<string>): (r: seq<string>)
    ensures |r| <= |lines|
    ensures forall x :: x in r <==> x != [] && exists k :: 0 <= k < |lines| && x == CleanLine(lines[k])
    ensures (forall k :: 0 <= k < |lines| ==> CleanLine(lines[k]) != []) ==>
      |r| == |lines| && forall k :: 0 <= k < |lines| ==> r[k] == CleanLine(lines[k])
  {
    MapDropEmpty(lines, CleanLine);
    DropEmpty(Map(lines, CleanLine))
  }

  /** Mapping then dropping the empty results keeps exactly the non-empty images, and all of
      them in order when none is empty. */
  lemma MapDropEmpty(lines: seq<string>, f: string -> string)
    ensures forall x :: x in DropEmpty(Map(lines, f)) <==> x != [] && exists k :: 0 <= k < |lines| && x == f(lines[k])
    ensures (forall k :: 0 <= k < |lines| ==> f(lines[k]) != []) ==>
      |DropEmpty(Map(lines, f))| == |lines| && forall k :: 0 <= k < |lines| ==> DropEmpty(Map(lines, f))[k] == f(lines[k])
  {
    var mapped := Map(lines, f);
    forall x | x in mapped ensures exists k :: 0 <= k < |lines| && x == f(lines[k]) {
      var k :| 0 <= k < |mapped| && mapped[k] == x;
    }
  }

  /** Every cleaned observation is a non-empty trimmed text. */
  lemma CleanObservationsTrimmed(lines: seq<string>)
    ensures forall x | x in CleanObservations(lines) :: x != [] && IsTrimmed(x)
  {
    var cleaned := Map(lines, CleanLine);
    forall x | x in CleanObservations(lines)
      ensures x != [] && IsTrimmed(x)
    {
      var k :| 0 <= k < |cleaned| && cleaned[k] == x;
    }
  }

  /** Cleaning works line by line: the observations keep the order of their lines. */
  lemma CleanObservationsAppend(a: seq<string>, b: seq<string>)
    ensures CleanObservations(a + b) == CleanObservations(a) + CleanObservations(b)
  {
    MapAppend(a, b, CleanLine);
    DropEmptyAppend(Map(a, CleanLine), Map(b, CleanLine));
  }

  /** `parseApiResponse(response)`. */
  function ParseApiResponse(response: string): PageAnalysis {
    var lines := NonBlank(Split(response, '\n'));
    PageAnalysis(
      FirstOr(lines),
      85,
      CleanObservations(lines[if |lines| < 1 then |lines| else 1..if |lines| < 5 then |lines| else 5]),
      "medium",
      response)
  }

  /** The fixed fields, the non-empty hypothesis and the at most four non-empty trimmed
      observations of every parsed report. */
  lemma ParseApiResponseShape(response: string)
    ensures var a := ParseApiResponse(response);
      && a.confidence == 85 && a.severity == "medium" && a.fullReport == response
      && a.hypothesis != []
      && |a.observations| <= 4
      && forall x | x in a.observations :: x != [] && IsTrimmed(x)
  {
    var lines := NonBlank(Split(response, '\n'));
    CleanObservationsTrimmed(lines[if |lines| < 1 then |lines| else 1..if |lines| < 5 then |lines| else 5]);
  }

  /** `lines[0] || "Analyse générée par MedGemma"` on the kept lines. */
  function FirstOr(lines: seq<string>): string {
    if |lines| > 0 then lines[0] else DefaultHypothesis
  }

  lemma FirstOrNonBlank(lines: seq<string>)
    ensures forall k | 0 <= k < |lines| && IsNonBlank(lines[k]) && (forall j | 0 <= j < k :: !IsNonBlank(lines[j])) ::
      FirstOr(NonBlank(lines)) == lines[k]
    ensures (forall k | 0 <= k < |lines| :: !IsNonBlank(lines[k])) ==> FirstOr(NonBlank(lines)) == DefaultHypothesis
  {
    forall k | 0 <= k < |lines| && IsNonBlank(lines[k]) && (forall j | 0 <= j < k :: !IsNonBlank(lines[j]))
      ensures FirstOr(NonBlank(lines)) == lines[k]
    {
      NonBlankFirst(lines, k);
    }
    if forall k | 0 <= k < |lines| :: !IsNonBlank(lines[k]) {
      NonBlankNone(lines);
    }
  }

  /** The hypothesis is the first line with a non-blank character, as it is, leading and
      trailing blanks included; the fixed default when every line is blank. */
  lemma ParseHypothesis(response: string)
    ensures var lines := Split(response, '\n');
      && (forall k | 0 <= k < |lines| && IsNonBlank(lines[k]) && (forall j | 0 <= j < k :: !IsNonBlank(lines[j])) ::
            ParseApiResponse(response).hypothesis == lines[k])
      && ((forall k | 0 <= k < |lines| :: !IsNonBlank(lines[k])) ==> ParseApiResponse(response).hypothesis == DefaultHypothesis)
  {
    var lines := Split(response, '\n');
    assert ParseApiResponse(response).hypothesis == FirstOr(NonBlank(lines));
    FirstOrNonBlank(lines);
  }

  /** The observations are the second to fifth non-blank lines of the response, cleaned,
      the lines that clean to nothing dropped; when none cleans to nothing, they are those
      lines one for one, in order. */
  lemma ParseObservations(response: string)
    ensures var lines := NonBlank(Split(response, '\n'));
      var observations := ParseApiResponse(response).observations;
      && (forall x :: x in observations <==>
            x != [] && exists k :: 1 <= k < 5 && k < |lines| && x == CleanLine(lines[k]))
      && ((forall k :: 1 <= k < 5 && k < |lines| ==> CleanLine(lines[k]) != []) ==>
            && |observations| == (if |lines| <= 1 then 0 else if |lines| < 5 then |lines| - 1 else 4)
            && forall k :: 1 <= k < 5 && k < |lines| ==> observations[k - 1] == CleanLine(lines[k]))
  {
    var lines := NonBlank(Split(response, '\n'));
    ObservationsAreWindow(response);
    var f := CleanLine;
    ObservationWindow(lines, f);
  }

  /** The observations are the cleaned window of kept lines with the empty ones dropped. */
  lemma ObservationsAreWindow(response: string)
    ensures var lines := NonBlank(Split(response, '\n'));
      ParseApiResponse(response).observations ==
        DropEmpty(Map(lines[if |lines| < 1 then |lines| else 1..if |lines| < 5 then |lines| else 5], CleanLine))
  {
  }

  /** `ParseObservations` on any list of kept lines and any cleaning function. */
  lemma ObservationWindow(lines: seq<string>, f: string -> string)
    ensures var observations := DropEmpty(Map(lines[if |lines| < 1 then |lines| else 1..if |lines| < 5 then |lines| else 5], f));
      && (forall x :: x in observations <==>
            x != [] && exists k :: 1 <= k < 5 && k < |lines| && x == f(lines[k]))
      && ((forall k :: 1 <= k < 5 && k < |lines| ==> f(lines[k]) != []) ==>
            && |observations| == (if |lines| <= 1 then 0 else if |lines| < 5 then |lines| - 1 else 4)
            && forall k :: 1 <= k < 5 && k < |lines| ==> observations[k - 1] == f(lines[k]))
  {
    if |lines| < 1 {
      assert lines[0..0] == [] && Map([], f) == [];
    } else {
      var hi := if |lines| < 5 then |lines| else 5;
      assert lines[if |lines| < 1 then |lines| else 1..if |lines| < 5 then |lines| else 5] == lines[1..hi];
      WindowMapDropEmpty(lines, f, 1, hi);
    }
  }

  /** `MapDropEmpty` on the piece `lines[lo..hi]`, with positions counted in `lines`. */
  lemma WindowMapDropEmpty(lines: seq<string>, f: string -> string, lo: nat, hi: nat)
    requires lo <= hi <= |lines|
    ensures var r := DropEmpty(Map(lines[lo..hi], f));
      && (forall x :: x in r <==> x != [] && exists k :: lo <= k < hi && x == f(lines[k]))
      && ((forall k :: lo <= k < hi ==> f(lines[k]) != []) ==>
            |r| == hi - lo && forall k :: lo <= k < hi ==> r[k - lo] == f(lines[k]))
  {
    var w := lines[lo..hi];
    MapDropEmpty(w, f);
    assert forall k :: 0 <= k < |w| ==> w[k] == lines[lo + k];
    forall k | lo <= k < hi && f(lines[k]) != []
      ensures f(lines[k]) in DropEmpty(Map(w, f))
    {
      assert f(lines[k]) == f(w[k - lo]);
    }
  }

  // ---------------------------------------------------------------------------------
  // getSeverityColor
  // ---------------------------------------------------------------------------------

  const HighColor: string := "bg-red-500/20 text-red-400 border-red-500/30"
  const MediumColor: string := "bg-yellow-500/20 text-yellow-400 border-yellow-500/30"
  const LowColor: string := "bg-green-500/20 text-green-400 border-green-500/30"
  const DefaultColor: string := "bg-gray-500/20 text-gray-400 border-gray-500/30"

  /** `getSeverityColor(severity)`. */
  function SeverityColor(severity: string): (r: string)
    ensures r in {HighColor, MediumColor, LowColor, DefaultColor}
    ensures severity == "high" ==> r == HighColor
    ensures severity == "medium" ==> r == MediumColor
    ensures severity == "low" ==> r == LowColor
  {
    if severity == "high" then HighColor
    else if severity == "medium" then MediumColor
    else if severity == "low" then LowColor
    else DefaultColor
  }

  /** Each of the three levels has its own colour, and every other text gets the gray one. */
  lemma SeverityColorsDistinct(severity: string)
    ensures SeverityColor(severity) == DefaultColor <==> severity !in {"high", "medium", "low"}
    ensures SeverityColor("high") != SeverityColor("medium") && SeverityColor("medium") != SeverityColor("low")
    ensures SeverityColor("low") != SeverityColor("high")
  {
    assert |HighColor| == 44 && |MediumColor| == 53 && |LowColor| == 50 && |DefaultColor| == 47;
  }

  // ---------------------------------------------------------------------------------
  // Prompts
  // ---------------------------------------------------------------------------------

  const ContextPrefix: string := "Analysez cette image médicale. Contexte clinique: "
  const NoContextPrompt: string := "Analysez cette image médicale et fournissez un diagnostic détaillé."

  /** The prompt `startAnalysis` sends for the current image. */
  function AnalysisPrompt(clinicalContext: string): (prompt: string)
    ensures clinicalContext != [] ==> ContextPrefix <= prompt && prompt[|ContextPrefix|..] == clinicalContext
    ensures clinicalContext == [] ==> prompt == NoContextPrompt
  {
    if clinicalContext != [] then ContextPrefix + clinicalContext else NoContextPrompt
  }

  const FollowUpPrefix: string := "Basé sur l'analyse précédente: "
  const QuestionMark: string := ". Question: "

  /** The prompt `sendMessage` sends: nothing for a blank message, the message itself when
      there is no analysis yet, otherwise the message behind the previous hypothesis. */
  function ChatPrompt(input: string, previous: Option<PageAnalysis>): (prompt: Option<string>)
    ensures prompt.None? <==> Trim(input) == []
    ensures prompt.Some? && previous.None? ==> prompt.value == input
    ensures prompt.Some? && previous.Some? ==>
      prompt.value == FollowUpPrefix + previous.value.hypothesis + QuestionMark + input
  {
    if Trim(input) == [] then None
    else if previous.Some? then Some(FollowUpPrefix + previous.value.hypothesis + QuestionMark + input)
    else Some(input)
  }

  /** The user's message always closes the prompt, whole. */
  lemma ChatPromptEndsWithInput(input: string, previous: Option<PageAnalysis>)
    requires Trim(input) != []
    ensures var p := ChatPrompt(input, previous).value; |input| <= |p| && p[|p| - |input|..] == input
  {
    var p := ChatPrompt(input, previous).value;
    if previous.Some? {
      assert p == (FollowUpPrefix + previous.value.hypothesis + QuestionMark) + input;
    }
  }

  // ---------------------------------------------------------------------------------
  // Images
  // ---------------------------------------------------------------------------------

  datatype Image = Image(id: string, name: string, url: string, mimeType: string)

  /** `file.type.startsWith("image/")`: the upload filter. */
  predicate IsImageType(mimeType: string) {
    "image/" <= mimeType
  }

  /** `prev.filter((img) => img.id !== imageId)`. */
  function WithoutId(images: seq<Image>, id: string): (r: seq<Image>)
    ensures |r| <= |images|
    ensures forall k :: 0 <= k < |r| ==> r[k].id != id
  {
    if images == [] then []
    else (if images[0].id != id then [images[0]] else []) + WithoutId(images[1..], id)
  }

  /** Exactly the images with another id stay. */
  lemma {:induction false} WithoutIdMembers(images: seq<Image>, id: string, x: Image)
    ensures x in WithoutId(images, id) <==> x in images && x.id != id
  {
    if images != [] {
      WithoutIdMembers(images[1..], id, x);
      assert images == [images[0]] + images[1..];
    }
  }

  /** The filter keeps the relative order of the images that stay. */
  lemma {:induction false} WithoutIdAppend(a: seq<Image>, b: seq<Image>, id: string)
    ensures WithoutId(a + b, id) == WithoutId(a, id) + WithoutId(b, id)
  {
    if a != [] {
      assert (a + b)[1..] == a[1..] + b;
      WithoutIdAppend(a[1..], b, id);
    } else {
      assert a + b == b;
    }
  }

  /** An id nobody has deletes nothing. */
  lemma {:induction false} WithoutIdKeepsAll(images: seq<Image>, id: string)
    requires forall k :: 0 <= k < |images| ==> images[k].id != id
    ensures WithoutId(images, id) == images
  {
    if images != [] {
      var rest := images[1..];
      assert forall k :: 0 <= k < |rest| ==> rest[k] == images[k + 1];
      WithoutIdKeepsAll(rest, id);
    }
  }

  /** The id of a listed image removes at least that image. */
  lemma {:induction false} WithoutIdShrinks(images: seq<Image>, id: string, k: nat)
    requires k < |images| && images[k].id == id
    ensures |WithoutId(images, id)| < |images|
  {
    if k > 0 {
      var rest := images[1..];
      assert rest[k - 1] == images[k];
      WithoutIdShrinks(rest, id, k - 1);
    }
  }

  /** The current index after a deletion that leaves `count` images: kept when it is still
      on the list, otherwise `Math.max(0, count - 1)`, the last image or 0. */
  function ClampIndex(index: nat, count: nat): (r: nat)
    ensures r < count || (count == 0 && r == 0)
    ensures index < count ==> r == index
    ensures index >= count ==> r == (if count == 0 then 0 else count - 1)
  {
    if index >= count then (if count == 0 then 0 else count - 1) else index
  }

  /** The index is on an image, or 0 when there is none. */
  predicate IndexOk(images: seq<Image>, index: nat) {
    index < |images| || (images == [] && index == 0)
  }

  // ---------------------------------------------------------------------------------
  // Progress
  // ---------------------------------------------------------------------------------

  /** One step of the scan-progress timer. */
  function Tick(progress: int): (r: int)
    ensures progress >= 90 ==> r == 90
    ensures progress < 90 ==> r == progress + 5
  {
    if progress >= 90 then 90 else progress + 5
  }

  /** `n` steps of the timer. */
  function TickN(progress: int, n: nat): int {
    if n == 0 then progress else Tick(TickN(progress, n - 1))
  }

  /** From 0 the bar climbs by 5 and stops at 90. */
  lemma {:induction false} TickFromZero(n: nat)
    ensures TickN(0, n) == if 5 * n < 90 then 5 * n else 90
  {
    if n > 0 {
      TickFromZero(n - 1);
    }
  }

  /** A progress that is a multiple of 5 in [0,100] stays one, and from at most 90 it stays
      at most 90. */
  lemma {:induction false} TickNBounds(progress: int, n: nat)
    requires 0 <= progress <= 100 && progress % 5 == 0
    ensures 0 <= TickN(progress, n) <= 100 && TickN(progress, n) % 5 == 0
    ensures progress <= 90 ==> TickN(progress, n) <= 90
    ensures n > 0 && progress >= 90 ==> TickN(progress, n) == 90
  {
    if n > 0 {
      TickNBounds(progress, n - 1);
    }
  }

  // ---------------------------------------------------------------------------------
  // The page state
  // ---------------------------------------------------------------------------------

  const AnalysisErrorFallback: string := "Erreur lors de l'analyse"

  /** The part of the page's React state the analysis flow changes. */
  class AnalysisPage {
    var uploadedImages: seq<Image>
    var currentImageIndex: nat
    var analysisComplete: bool
    var fullAnalysisView: bool
    var expandedResults: bool
    var isAnalyzing: bool
    var scanProgress: int
    /** The progress interval is registered. */
    var ticking: bool
    var analysisResult: Option<PageAnalysis>
    var apiError: Option<string>

    ghost predicate Valid()
      reads this
    {
      IndexOk(uploadedImages, currentImageIndex) && 0 <= scanProgress <= 100 && scanProgress % 5 == 0
    }

    /** The initial state of the hooks. */
    constructor()
      ensures Valid()
      ensures uploadedImages == [] && currentImageIndex == 0 && scanProgress == 0
      ensures !analysisComplete && !fullAnalysisView && !expandedResults && !isAnalyzing && !ticking
      ensures analysisResult.None? && apiError.None?
    {
      uploadedImages := [];
      currentImageIndex := 0;
      analysisComplete := false;
      fullAnalysisView := false;
      expandedResults := false;
      isAnalyzing := false;
      scanProgress := 0;
      ticking := false;
      analysisResult := None;
      apiError := None;
    }

    /** A file read by the upload handler: appended when its type is an image type. */
    method AddImage(image: Image)
      requires Valid()
      modifies this
      ensures Valid()
      ensures uploadedImages == old(uploadedImages) + (if IsImageType(image.mimeType) then [image] else [])
      ensures currentImageIndex == old(currentImageIndex) && scanProgress == old(scanProgress)
      ensures analysisComplete == old(analysisComplete) && fullAnalysisView == old(fullAnalysisView)
      ensures expandedResults == old(expandedResults) && isAnalyzing == old(isAnalyzing) && ticking == old(ticking)
      ensures analysisResult == old(analysisResult) && apiError == old(apiError)
    {
      if IsImageType(image.mimeType) {
        uploadedImages := uploadedImages + [image];
      }
    }

    /** A thumbnail click. */
    method SelectImage(index: nat)
      requires Valid() && index < |uploadedImages|
      modifies this
      ensures Valid() && currentImageIndex == index
      ensures uploadedImages == old(uploadedImages) && scanProgress == old(scanProgress)
      ensures analysisComplete == old(analysisComplete) && fullAnalysisView == old(fullAnalysisView)
      ensures expandedResults == old(expandedResults) && isAnalyzing == old(isAnalyzing) && ticking == old(ticking)
      ensures analysisResult == old(analysisResult) && apiError == old(apiError)
    {
      currentImageIndex := index;
    }

    /** `deleteImage(imageId)`: drops every image with that id, pulls the index back onto the
        list, and clears the analysis flags once the list is empty. */
    method DeleteImage(id: string)
      requires Valid()
      modifies this
      ensures Valid()
      ensures uploadedImages == WithoutId(old(uploadedImages), id)
      ensures currentImageIndex == ClampIndex(old(currentImageIndex), |uploadedImages|)
      ensures uploadedImages == [] ==> !analysisComplete && !fullAnalysisView && !expandedResults
      ensures uploadedImages != [] ==>
        analysisComplete == old(analysisComplete) && fullAnalysisView == old(fullAnalysisView) &&
        expandedResults == old(expandedResults)
      ensures scanProgress == old(scanProgress) && isAnalyzing == old(isAnalyzing) && ticking == old(ticking)
      ensures analysisResult == old(analysisResult) && apiError == old(apiError)
    {
      var remaining := WithoutId(uploadedImages, id);
      if currentImageIndex >= |remaining| {
        currentImageIndex := if |remaining| - 1 < 0 then 0 else |remaining| - 1;
      }
      if |remaining| == 0 {
        analysisComplete := false;
        fullAnalysisView := false;
        expandedResults := false;
      }
      uploadedImages := remaining;
    }

    /** `deleteCurrentImage()`: nothing happens on an empty list; otherwise the image under
        the index goes, and the list gets shorter. */
    method DeleteCurrentImage()
      requires Valid()
      modifies this
      ensures Valid()
      ensures old(uploadedImages) == [] ==> uploadedImages == [] && currentImageIndex == old(currentImageIndex)
      ensures old(uploadedImages) == [] ==>
        analysisComplete == old(analysisComplete) && fullAnalysisView == old(fullAnalysisView) &&
        expandedResults == old(expandedResults)
      ensures old(uploadedImages) != [] ==>
        uploadedImages == WithoutId(old(uploadedImages), old(uploadedImages)[old(currentImageIndex)].id) &&
        |uploadedImages| < |old(uploadedImages)| &&
        currentImageIndex == ClampIndex(old(currentImageIndex), |uploadedImages|)
      ensures old(uploadedImages) != [] && uploadedImages == [] ==> !analysisComplete && !fullAnalysisView && !expandedResults
      ensures old(uploadedImages) != [] && uploadedImages != [] ==>
        analysisComplete == old(analysisComplete) && fullAnalysisView == old(fullAnalysisView) &&
        expandedResults == old(expandedResults)
      ensures scanProgress == old(scanProgress) && isAnalyzing == old(isAnalyzing) && ticking == old(ticking)
      ensures analysisResult == old(analysisResult) && apiError == old(apiError)
    {
      if |uploadedImages| > 0 {
        WithoutIdShrinks(uploadedImages, uploadedImages[currentImageIndex].id, currentImageIndex);
        DeleteImage(uploadedImages[currentImageIndex].id);
      }
    }

    /** The synchronous start of `startAnalysis`: nothing without images; otherwise the
        flags are set, the bar reset, the timer started and the prompt built. */
    method StartAnalysis(clinicalContext: string) returns (prompt: Option<string>)
      requires Valid()
      modifies this
      ensures Valid()
      ensures old(uploadedImages) == [] ==>
        (prompt.None? && isAnalyzing == old(isAnalyzing) && scanProgress == old(scanProgress) &&
         ticking == old(ticking) && apiError == old(apiError) && analysisComplete == old(analysisComplete))
      ensures old(uploadedImages) != [] ==>
        (prompt == Some(AnalysisPrompt(clinicalContext)) && isAnalyzing && !analysisComplete &&
         scanProgress == 0 && ticking && apiError.None?)
      ensures uploadedImages == old(uploadedImages) && currentImageIndex == old(currentImageIndex)
      ensures fullAnalysisView == old(fullAnalysisView) && expandedResults == old(expandedResults)
      ensures analysisResult == old(analysisResult)
    {
      if |uploadedImages| == 0 {
        return None;
      }
      isAnalyzing := true;
      analysisComplete := false;
      scanProgress := 0;
      apiError := None;
      ticking := true;
      prompt := Some(AnalysisPrompt(clinicalContext));
    }

    /** One firing of the progress interval: pins the bar at 90 and stops the timer once it
        has reached 90, otherwise adds 5. */
    method ProgressTick()
      requires Valid()
      modifies this
      ensures Valid()
      ensures scanProgress == if old(ticking) then Tick(old(scanProgress)) else old(scanProgress)
      ensures ticking == (old(ticking) && old(scanProgress) < 90)
      ensures uploadedImages == old(uploadedImages) && currentImageIndex == old(currentImageIndex)
      ensures analysisComplete == old(analysisComplete) && fullAnalysisView == old(fullAnalysisView)
      ensures expandedResults == old(expandedResults) && isAnalyzing == old(isAnalyzing)
      ensures analysisResult == old(analysisResult) && apiError == old(apiError)
    {
      if ticking {
        if scanProgress >= 90 {
          ticking := false;
          scanProgress := 90;
        } else {
          scanProgress := scanProgress + 5;
        }
      }
    }

    /** `n` firings of the interval: the bar follows `TickN`, so from 0 it never passes 90,
        and the timer is still running exactly when no firing found the bar at 90 or more. */
    method RunProgress(n: nat)
      requires Valid()
      modifies this
      ensures Valid()
      ensures old(ticking) ==> scanProgress == TickN(old(scanProgress), n)
      ensures ticking == (old(ticking) && (n == 0 || TickN(old(scanProgress), n - 1) < 90))
      ensures !old(ticking) ==> scanProgress == old(scanProgress)
      ensures uploadedImages == old(uploadedImages) && currentImageIndex == old(currentImageIndex)
      ensures analysisComplete == old(analysisComplete) && isAnalyzing == old(isAnalyzing)
      ensures fullAnalysisView == old(fullAnalysisView) && expandedResults == old(expandedResults)
      ensures analysisResult == old(analysisResult) && apiError == old(apiError)
    {
      for i := 0 to n
        invariant Valid()
        invariant old(ticking) ==> scanProgress == TickN(old(scanProgress), i)
        invariant ticking == (old(ticking) && (i == 0 || TickN(old(scanProgress), i - 1) < 90))
        invariant old(ticking) && !ticking ==> scanProgress == 90
        invariant !old(ticking) ==> scanProgress == old(scanProgress)
        invariant uploadedImages == old(uploadedImages) && currentImageIndex == old(currentImageIndex)
        invariant analysisComplete == old(analysisComplete) && isAnalyzing == old(isAnalyzing)
        invariant fullAnalysisView == old(fullAnalysisView) && expandedResults == old(expandedResults)
        invariant analysisResult == old(analysisResult) && apiError == old(apiError)
      {
        ProgressTick();
      }
    }

    /** The success branch of `startAnalysis` and its `finally`: the parsed report is stored,
        the bar filled and the timer stopped. */
    method CompleteAnalysis(response: string)
      requires Valid()
      modifies this
      ensures Valid()
      ensures analysisResult == Some(ParseApiResponse(response))
      ensures scanProgress == 100 && !isAnalyzing && analysisComplete && !ticking
      ensures uploadedImages == old(uploadedImages) && currentImageIndex == old(currentImageIndex)
      ensures fullAnalysisView == old(fullAnalysisView) && expandedResults == old(expandedResults)
      ensures apiError == old(apiError)
    {
      var parsed := ParseApiResponse(response);
      scanProgress := 100;
      analysisResult := Some(parsed);
      isAnalyzing := false;
      analysisComplete := true;
      ticking := false;
    }

    /** The error branch of `startAnalysis` and its `finally`: the message is shown (a fixed
        one for a thrown non-`Error`), the bar reset and the timer stopped. */
    method FailAnalysis(message: Option<string>)
      requires Valid()
      modifies this
      ensures Valid()
      ensures apiError == Some(message.GetOr(AnalysisErrorFallback))
      ensures scanProgress == 0 && !isAnalyzing && !ticking
      ensures uploadedImages == old(uploadedImages) && currentImageIndex == old(currentImageIndex)
      ensures analysisComplete == old(analysisComplete) && analysisResult == old(analysisResult)
      ensures fullAnalysisView == old(fullAnalysisView) && expandedResults == old(expandedResults)
    {
      apiError := Some(message.GetOr(AnalysisErrorFallback));
      isAnalyzing := false;
      scanProgress := 0;
      ticking := false;
    }
  }
}
