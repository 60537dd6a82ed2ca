/** The scraper's `error_tracker`: one status per named pipeline step, the reset
    done at the start of every analysis run, the sweep the critical-error handler
    applies, and the root-cause report printed at the end of a run. */
module Tracker {
  import opened Text

  datatype Step =
    | DriverSetup | PageLoad | PageScroll | TweetExtraction
    | NlpProcessing | Deduplication | FileOperations | CaptchaDetection

  datatype Status = NotStarted | InProgress | Success | Partial | Failed | Skipped

  type Tracker = map<Step, Status>

  /** The keys of the tracker in `v8.py` (which adds CAPTCHA detection). */
  const V8Steps: seq<Step> :=
    [DriverSetup, PageLoad, PageScroll, TweetExtraction, NlpProcessing, Deduplication,
     FileOperations, CaptchaDetection]

  /** The keys of the tracker in `twitter_redirect_anz.py`. */
  const AnzSteps: seq<Step> :=
    [DriverSetup, PageLoad, PageScroll, TweetExtraction, NlpProcessing, Deduplication,
     FileOperations]

  /** The order in which the root-cause report walks the steps. */
  const PipelineOrder: seq<Step> :=
    [DriverSetup, PageLoad, PageScroll, TweetExtraction, Deduplication, NlpProcessing,
     FileOperations]

  /** The steps the critical-error handler inspects. */
  const ScrapingSteps: seq<Step> := [DriverSetup, PageLoad, PageScroll, TweetExtraction]

  /** `for step in error_tracker: error_tracker[step] = not_started`. */
  function Reset(keys: seq<Step>): (t: Tracker)
    ensures t.Keys == set s | s in keys
    ensures forall s :: s in t ==> t[s] == NotStarted
  {
    map s | s in keys :: NotStarted
  }

  /** `error_tracker[step]["status"] = status`, for a step the tracker already has. */
  function Set(t: Tracker, s: Step, status: Status): (r: Tracker)
    ensures r.Keys == t.Keys + {s}
    ensures s in r && r[s] == status
    ensures forall o :: o in t && o != s ==> o in r && r[o] == t[o]
  {
    t[s := status]
  }

  /** The critical-error handler: every scraping step still in progress becomes
      failed; every other entry is left as it was. */
  function Sweep(t: Tracker): (r: Tracker)
    ensures r.Keys == t.Keys
    ensures forall s :: s in t && s in ScrapingSteps && t[s] == InProgress ==> r[s] == Failed
    ensures forall s :: s in t && !(s in ScrapingSteps && t[s] == InProgress) ==> r[s] == t[s]
  {
    map s | s in t :: if s in ScrapingSteps && t[s] == InProgress then Failed else t[s]
  }

  /** After the sweep no scraping step is left in progress, so a second sweep
      changes nothing. */
  lemma SweepSettles(t: Tracker)
    ensures forall s :: s in ScrapingSteps && s in Sweep(t) ==> Sweep(t)[s] != InProgress
    ensures Sweep(Sweep(t)) == Sweep(t)
  {
  }

  /** The first step of `order` the tracker records as failed; steps the tracker
      lacks are skipped. */
  function FirstFailed(t: Tracker, order: seq<Step>): (r: Option<Step>)
    ensures r.Some? ==> exists i :: 0 <= i < |order| && order[i] == r.value
    ensures r.Some? ==> r.value in t && t[r.value] == Failed
    ensures r.Some? ==> forall i ::
              (0 <= i < |order| && order[i] != r.value && order[i] in t && t[order[i]] == Failed)
              ==> (exists j :: 0 <= j < i && order[j] == r.value)
    ensures r.None? <==> forall i :: 0 <= i < |order| && order[i] in t ==> t[order[i]] != Failed
  {
    if order == [] then None
    else if order[0] in t && t[order[0]] == Failed then Some(order[0])
    else
      var r := FirstFailed(t, order[1..]);
      assert forall i :: 1 <= i < |order| ==> order[i] == order[1..][i - 1];
      r
  }

  /** The root cause of the summary report: the first failed step in pipeline
      order, or none when no step failed. */
  function RootCause(t: Tracker): (r: Option<Step>)
    ensures r.Some? ==> r.value in PipelineOrder && r.value in t && t[r.value] == Failed
    ensures r.None? <==> forall s :: s in PipelineOrder && s in t ==> t[s] != Failed
  {
    FirstFailed(t, PipelineOrder)
  }

  /** A step that precedes the root cause in pipeline order did not fail. */
  lemma RootCauseIsFirst(t: Tracker, i: int, j: int)
    requires 0 <= i < j < |PipelineOrder|
    requires RootCause(t) == Some(PipelineOrder[j])
    ensures PipelineOrder[i] in t ==> t[PipelineOrder[i]] != Failed
  {
    if PipelineOrder[i] in t && t[PipelineOrder[i]] == Failed {
      var k :| 0 <= k < i && PipelineOrder[k] == PipelineOrder[j];
      assert false;
    }
  }

  /** With driver setup not failed, a failed page load is the root cause. */
  lemma RootCausePageLoad(t: Tracker)
    requires DriverSetup in t && t[DriverSetup] != Failed
    requires PageLoad in t && t[PageLoad] == Failed
    ensures RootCause(t) == Some(PageLoad)
  {
    var rest := PipelineOrder[1..];
    assert PipelineOrder[0] == DriverSetup && rest[0] == PageLoad;
    assert FirstFailed(t, rest) == Some(PageLoad);
  }
}
