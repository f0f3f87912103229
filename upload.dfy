/**
 * The client-side upload service (Frontend/lib/medgemma-service.ts): the image validators,
 * the upload-progress percentage and the progress values `analyzeImages` reports.
 */
module UploadService {
  import opened Wrappers
  import Page

  // ---------------------------------------------------------------------------------
  // Validators
  // ---------------------------------------------------------------------------------

  const ValidTypes: seq<string> := ["image/jpeg", "image/jpg", "image/png", "image/gif", "image/bmp"]

  /** `isValidImageFormat(file)`: the MIME type is on the allow-list, compared exactly. */
  predicate IsValidImageFormat(mimeType: string): (r: bool)
    ensures r ==> Page.IsImageType(mimeType)
    ensures r <==> mimeType == "image/jpeg" || mimeType == "image/jpg" || mimeType == "image/png" ||
                   mimeType == "image/gif" || mimeType == "image/bmp"
  {
    mimeType in ValidTypes
  }

  /** The converse of the first clause of `IsValidImageFormat` fails: `image/webp` passes the
      page's own `image/` prefix filter and the service refuses it. */
  lemma ValidFormatsAreImages()
    ensures Page.IsImageType("image/webp") && !IsValidImageFormat("image/webp")
  {
    assert "image/" <= "image/webp";
  }

  const DefaultMaxSizeMB := 50

  /** The upload cap of the backend's multipart parser, in bytes (Backend/index.js). */
  const BackendMaxBytes := 50 * 1024 * 1024

  /** `isValidImageSize(file, maxSizeMB)`: at most `maxSizeMB` mebibytes. */
  predicate IsValidImageSize(size: int, maxSizeMB: int): (r: bool)
    ensures r <==> size <= maxSizeMB * 1048576
    ensures 0 <= maxSizeMB && size <= 0 ==> r
  {
    size <= maxSizeMB * 1024 * 1024
  }

  /** A smaller file passes whenever a larger one does, and a larger cap keeps every file
      that a smaller cap lets through. */
  lemma SizeLimitMonotone(size: int, larger: int, maxSizeMB: int, higherMB: int)
    requires size <= larger && maxSizeMB <= higherMB
    ensures IsValidImageSize(larger, maxSizeMB) ==> IsValidImageSize(size, higherMB)
  {
  }

  /** With the default limit the service and the backend agree on every size, and the
      boundary sits at 52,428,800 bytes. */
  lemma DefaultSizeLimit(size: int)
    ensures IsValidImageSize(size, DefaultMaxSizeMB) <==> size <= BackendMaxBytes
    ensures IsValidImageSize(52428800, DefaultMaxSizeMB) && !IsValidImageSize(52428801, DefaultMaxSizeMB)
  {
  }

  // ---------------------------------------------------------------------------------
  // Upload progress
  // ---------------------------------------------------------------------------------

  /** `Math.round(n / d)` for `n >= 0` and `d > 0`: halves round up. */
  function RoundDiv(n: nat, d: nat): (r: nat)
    requires d > 0
    ensures 2 * d * r <= 2 * n + d < 2 * d * r + 2 * d
  {
    (2 * n + d) / (2 * d)
  }

  /** The value `onUploadProgress` reports, if any: nothing without a callback or without a
      truthy total; otherwise 40 plus the rounded share of 20 points. */
  function UploadProgress(hasCallback: bool, loaded: nat, total: Option<nat>): (r: Option<int>)
    ensures r.None? <==> !hasCallback || total.None? || total.value == 0
    ensures r.Some? ==> r.value == 40 + RoundDiv(loaded * 20, total.value)
  {
    if hasCallback && total.Some? && total.value > 0 then Some(40 + RoundDiv(loaded * 20, total.value))
    else None
  }

  /** A reported upload value lies in [40,60] while `loaded` does not exceed `total`. */
  lemma UploadProgressBounds(loaded: nat, total: nat)
    requires 0 < total && loaded <= total
    ensures 40 <= UploadProgress(true, loaded, Some(total)).value <= 60
  {
    var r := RoundDiv(loaded * 20, total);
    assert 2 * total * r <= 41 * total;
    if r >= 21 {
      MulMonotone(2 * total, 21, r);
    }
  }

  /** More bytes never report less progress. */
  lemma UploadProgressMonotone(loaded1: nat, loaded2: nat, total: nat)
    requires 0 < total && loaded1 <= loaded2
    ensures UploadProgress(true, loaded1, Some(total)).value <= UploadProgress(true, loaded2, Some(total)).value
  {
    DivMonotone(2 * (loaded1 * 20) + total, 2 * (loaded2 * 20) + total, 2 * total);
  }

  lemma {:induction false} MulMonotone(t: nat, a: int, b: int)
    requires a <= b
    ensures t * a <= t * b
  {
    if t > 0 {
      MulMonotone(t - 1, a, b);
      assert t * a == (t - 1) * a + a;
      assert t * b == (t - 1) * b + b;
    }
  }

  lemma DivMonotone(a: nat, b: nat, d: nat)
    requires a <= b && d > 0
    ensures a / d <= b / d
  {
    var qa, qb := a / d, b / d;
    assert d * qa <= a;
    assert b < d * qb + d == d * (qb + 1);
    if qb + 1 <= qa {
      MulMonotone(d, qb + 1, qa);
    }
  }

  // ---------------------------------------------------------------------------------
  // The scripted sequence
  // ---------------------------------------------------------------------------------

  /** A browser upload event: bytes sent and, when known, the total. */
  datatype UploadEvent = UploadEvent(loaded: nat, total: Option<nat>)

  /** How far `analyzeImages` gets: it can fail while preparing the images, during the
      request, or succeed. */
  datatype Outcome = FailedBeforeSending | FailedDuringRequest | Succeeded

  const Preparation: seq<int> := [0, 10, 20, 30, 40]
  const Completion: seq<int> := [70, 85, 95, 100]

  /** An event reports a value: there is a callback and a non-zero total. */
  predicate Reports(hasCallback: bool, e: UploadEvent) {
    UploadProgress(hasCallback, e.loaded, e.total).Some?
  }

  /** The values the upload events report, in order: exactly the `UploadProgress` values of
      the reporting events, and one per event when every event reports. */
  function UploadValues(hasCallback: bool, events: seq<UploadEvent>): (r: seq<int>)
    ensures |r| <= |events|
    ensures !hasCallback ==> r == []
    ensures (forall k :: 0 <= k < |events| ==> Reports(hasCallback, events[k])) ==>
      |r| == |events| && forall k :: 0 <= k < |events| ==> Some(r[k]) == UploadProgress(hasCallback, events[k].loaded, events[k].total)
  {
    if events == [] then []
    else
      var last := events[|events| - 1];
      var init := UploadValues(hasCallback, events[..|events| - 1]);
      assert forall k :: 0 <= k < |events| - 1 ==> events[..|events| - 1][k] == events[k];
      match UploadProgress(hasCallback, last.loaded, last.total)
      case Some(v) => init + [v]
      case None => init
  }

  /** A value is reported exactly when some event reports it. */
  lemma {:induction false} UploadValuesMembers(hasCallback: bool, events: seq<UploadEvent>, v: int)
    ensures v in UploadValues(hasCallback, events) <==>
      exists k :: 0 <= k < |events| && UploadProgress(hasCallback, events[k].loaded, events[k].total) == Some(v)
  {
    if events != [] {
      var init := events[..|events| - 1];
      UploadValuesMembers(hasCallback, init, v);
      assert forall k :: 0 <= k < |init| ==> init[k] == events[k];
    }
  }

  /** The events report one after the other: later events add their values at the end. */
  lemma {:induction false} UploadValuesAppend(hasCallback: bool, a: seq<UploadEvent>, b: seq<UploadEvent>)
    ensures UploadValues(hasCallback, a + b) == UploadValues(hasCallback, a) + UploadValues(hasCallback, b)
    decreases |b|
  {
    if b == [] {
      assert a + b == a;
    } else {
      var b' := b[..|b| - 1];
      assert (a + b)[..|a + b| - 1] == a + b';
      UploadValuesAppend(hasCallback, a, b');
    }
  }

  /** Every value handed to `onProgress` during one `analyzeImages` call, in order. */
  function ProgressSequence(hasCallback: bool, events: seq<UploadEvent>, outcome: Outcome): (r: seq<int>)
    ensures !hasCallback || outcome == FailedBeforeSending ==> r == []
    ensures hasCallback && outcome != FailedBeforeSending ==>
      var u := UploadValues(hasCallback, events);
      && |r| == |Preparation| + |u| + (if outcome == Succeeded then |Completion| else 0)
      && r[..5] == [0, 10, 20, 30, 40]
      && r[5..5 + |u|] == u
    ensures hasCallback && outcome == Succeeded ==> r[|r| - 4..] == [70, 85, 95, 100] && r[|r| - 1] == 100
  {
    if !hasCallback || outcome == FailedBeforeSending then []
    else Preparation + UploadValues(hasCallback, events) + (if outcome == Succeeded then Completion else [])
  }

  predicate NonDecreasing(s: seq<int>) {
    forall i, j :: 0 <= i < j < |s| ==> s[i] <= s[j]
  }

  /** Events that stay within their total. */
  predicate Bounded(events: seq<UploadEvent>) {
    forall k :: 0 <= k < |events| ==> events[k].total.Some? ==> events[k].loaded <= events[k].total.value
  }

  /** Upload values from bounded events all lie in [40,60]. */
  lemma {:induction false} UploadValuesBounds(events: seq<UploadEvent>)
    requires Bounded(events)
    ensures forall k :: 0 <= k < |UploadValues(true, events)| ==> 40 <= UploadValues(true, events)[k] <= 60
  {
    if events != [] {
      var init := events[..|events| - 1];
      var last := events[|events| - 1];
      assert Bounded(init) by {
        forall k | 0 <= k < |init| ensures init[k] == events[k] {}
      }
      UploadValuesBounds(init);
      if last.total.Some? && last.total.value > 0 {
        UploadProgressBounds(last.loaded, last.total.value);
      }
    }
  }

  /** Two non-decreasing runs, the first nowhere above the second, make one. */
  lemma ConcatNonDecreasing(a: seq<int>, b: seq<int>)
    requires NonDecreasing(a) && NonDecreasing(b)
    requires forall i, j :: 0 <= i < |a| && 0 <= j < |b| ==> a[i] <= b[j]
    ensures NonDecreasing(a + b)
  {
    var s := a + b;
    forall i, j | 0 <= i < j < |s|
      ensures s[i] <= s[j]
    {
      if j < |a| {
        assert s[i] == a[i] && s[j] == a[j];
      } else if i < |a| {
        assert s[i] == a[i] && s[j] == b[j - |a|];
      } else {
        assert s[i] == b[i - |a|] && s[j] == b[j - |a|];
      }
    }
  }

  /** Every piece of a non-decreasing sequence is non-decreasing. */
  lemma SliceNonDecreasing(s: seq<int>, lo: nat, hi: nat)
    requires NonDecreasing(s) && lo <= hi <= |s|
    ensures NonDecreasing(s[lo..hi])
  {
    forall i, j | 0 <= i < j < hi - lo
      ensures s[lo..hi][i] <= s[lo..hi][j]
    {
      assert s[lo..hi][i] == s[lo + i] && s[lo..hi][j] == s[lo + j];
    }
  }

  /** With bounded events, once the request is sent the reported progress never goes down
      exactly when the upload values themselves never go down. */
  lemma ProgressSequenceMonotone(hasCallback: bool, events: seq<UploadEvent>, outcome: Outcome)
    requires Bounded(events) && outcome != FailedBeforeSending
    ensures NonDecreasing(ProgressSequence(hasCallback, events, outcome)) <==> NonDecreasing(UploadValues(hasCallback, events))
  {
    if NonDecreasing(UploadValues(hasCallback, events)) {
      ProgressSequenceRises(hasCallback, events, outcome);
    }
    if NonDecreasing(ProgressSequence(hasCallback, events, outcome)) {
      ProgressSequenceShowsValues(hasCallback, events, outcome);
    }
  }

  /** Bounded upload values that never go down make the whole sequence never go down. */
  lemma ProgressSequenceRises(hasCallback: bool, events: seq<UploadEvent>, outcome: Outcome)
    requires Bounded(events) && NonDecreasing(UploadValues(hasCallback, events))
    ensures NonDecreasing(ProgressSequence(hasCallback, events, outcome))
  {
    if hasCallback && outcome != FailedBeforeSending {
      UploadValuesBounds(events);
      var u := UploadValues(hasCallback, events);
      var tail := if outcome == Succeeded then Completion else [];
      assert ProgressSequence(hasCallback, events, outcome) == Preparation + u + tail;
      ScriptAround(u, tail);
    }
  }

  /** The scripted values around upload values in [40,60] keep the order. */
  lemma ScriptAround(u: seq<int>, tail: seq<int>)
    requires NonDecreasing(u) && forall k :: 0 <= k < |u| ==> 40 <= u[k] <= 60
    requires tail == Completion || tail == []
    ensures NonDecreasing(Preparation + u + tail)
  {
    ConcatNonDecreasing(Preparation, u);
    ConcatNonDecreasing(Preparation + u, tail);
  }

  /** The upload values are a piece of the sequence, so a sequence that never goes down
      has upload values that never go down. */
  lemma ProgressSequenceShowsValues(hasCallback: bool, events: seq<UploadEvent>, outcome: Outcome)
    requires outcome != FailedBeforeSending && NonDecreasing(ProgressSequence(hasCallback, events, outcome))
    ensures NonDecreasing(UploadValues(hasCallback, events))
  {
    if hasCallback {
      var u := UploadValues(hasCallback, events);
      var s := ProgressSequence(hasCallback, events, outcome);
      SliceNonDecreasing(s, 5, 5 + |u|);
    }
  }

  /** Upload events against one known total whose `loaded` never goes down report values
      that never go down. */
  lemma SteadyUploadValues(events: seq<UploadEvent>, total: nat)
    requires 0 < total && forall k :: 0 <= k < |events| ==> events[k].total == Some(total)
    requires forall i, j :: 0 <= i < j < |events| ==> events[i].loaded <= events[j].loaded
    ensures NonDecreasing(UploadValues(true, events))
  {
    var u := UploadValues(true, events);
    forall i, j | 0 <= i < j < |u|
      ensures u[i] <= u[j]
    {
      UploadProgressMonotone(events[i].loaded, events[j].loaded, total);
    }
  }

  /** Such events, staying within their total, make the whole reported sequence of a call
      never go down, whatever the outcome. */
  lemma SteadyUploadProgress(hasCallback: bool, events: seq<UploadEvent>, total: nat, outcome: Outcome)
    requires 0 < total && forall k :: 0 <= k < |events| ==> events[k].total == Some(total)
    requires forall i, j :: 0 <= i < j < |events| ==> events[i].loaded <= events[j].loaded
    requires forall k :: 0 <= k < |events| ==> events[k].loaded <= total
    ensures NonDecreasing(ProgressSequence(hasCallback, events, outcome))
  {
    if hasCallback && outcome != FailedBeforeSending {
      SteadyUploadValues(events, total);
      ProgressSequenceMonotone(hasCallback, events, outcome);
    }
  }

  /** A completed call with a callback and no upload events reports exactly the nine
      scripted values. */
  lemma ScriptedValues()
    ensures ProgressSequence(true, [], Succeeded) == [0, 10, 20, 30, 40, 70, 85, 95, 100]
  {
  }
}
