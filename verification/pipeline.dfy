/** The analysis coordinators built on the scrapers: the progress-message
    stream of `v8.py`'s `run_twitter_analysis_script`, `analyze_twitter_trend`
    of `twitter_redirect_anz.py` (tracker reset, scoring, ranking, segment
    display, root-cause report), of `twitter_trend_analysis.py` (scrape,
    `remove_duplicates`, scoring, ranking) and of `twitter_trend_analysis1.py`
    (whose scraper raises before returning). Writing the YAML files is an
    oracle: whether the write succeeded. */
module Pipeline {
  import opened Text
  import opened Dedup
  import opened Ranking
  import opened Tracker
  import opened Tweets
  import opened Scroll
  import opened Scoring
  import opened Session

  // ---------------------------------------------------------------------------
  // Ranking and segments

  /** `x.get("relevancy_score", 0)`. */
  function ScoreKey(t: Tweet): int { t.score.GetOr(0) }

  /** `sorted(tweets, key=..., reverse=True)`: a permutation with non-increasing
      scores. */
  function Ranked(ts: seq<Tweet>): (r: seq<Tweet>)
    ensures |r| == |ts|
    ensures multiset(r) == multiset(ts)
    ensures SortedDesc(r, ScoreKey)
  {
    SortDesc(ts, ScoreKey)
  }

  /** Tweets of equal score keep their input order. */
  lemma RankedStable(ts: seq<Tweet>, k: int)
    ensures WithKey(Ranked(ts), ScoreKey, k) == WithKey(ts, ScoreKey, k)
  {
    SortDescStable(ts, ScoreKey, k);
  }

  datatype Segment = High | Medium | Low

  /** The three conditions of `display_by_segments`: at least 75, 50 to 74,
      below 50. */
  predicate InSegment(g: Segment, s: int) {
    match g
    case High => s >= 75
    case Medium => 50 <= s < 75
    case Low => s < 50
  }

  /** The segment conditions partition the integers: every score satisfies
      exactly one. */
  lemma SegmentsPartition(s: int)
    ensures InSegment(High, s) || InSegment(Medium, s) || InSegment(Low, s)
    ensures !(InSegment(High, s) && InSegment(Medium, s))
    ensures !(InSegment(High, s) && InSegment(Low, s))
    ensures !(InSegment(Medium, s) && InSegment(Low, s))
  {
  }

  /** The scored tweets whose score lies in segment `g`, in order. */
  function Group(ts: seq<Tweet>, g: Segment): (r: seq<Tweet>)
    ensures forall t :: t in r ==> t in ts && t.score.Some? && InSegment(g, t.score.value)
  {
    if ts == [] then []
    else (if ts[0].score.Some? && InSegment(g, ts[0].score.value) then [ts[0]] else []) + Group(ts[1..], g)
  }

  /** The tweets that carry a score, in order. */
  function ScoredOnly(ts: seq<Tweet>): seq<Tweet> {
    if ts == [] then []
    else (if ts[0].score.Some? then [ts[0]] else []) + ScoredOnly(ts[1..])
  }

  /** The three groups together hold every scored tweet exactly once. */
  lemma {:induction false} GroupsPartition(ts: seq<Tweet>)
    ensures multiset(Group(ts, High)) + multiset(Group(ts, Medium)) + multiset(Group(ts, Low))
            == multiset(ScoredOnly(ts))
  {
    if ts != [] {
      GroupsPartition(ts[1..]);
      if ts[0].score.Some? {
        SegmentsPartition(ts[0].score.value);
      }
    }
  }

  lemma {:induction false} ScoredOnlyAll(ts: seq<Tweet>)
    requires forall i :: 0 <= i < |ts| ==> ts[i].score.Some?
    ensures ScoredOnly(ts) == ts
  {
    if ts != [] {
      ScoredOnlyAll(ts[1..]);
      assert ts == [ts[0]] + ts[1..];
    }
  }

  lemma {:induction false} ScoredOnlyEmpty(ts: seq<Tweet>)
    ensures ScoredOnly(ts) == [] <==> forall i :: 0 <= i < |ts| ==> ts[i].score.None?
  {
    if ts != [] {
      ScoredOnlyEmpty(ts[1..]);
      assert forall i :: 1 <= i < |ts| ==> ts[i] == ts[1..][i - 1];
    }
  }

  /** What `display_by_segments` of `twitter_redirect_anz.py` prints: the three
      groups (each only over tweets that carry a score) and whether it falls
      back to listing every tweet because no group had any. */
  datatype Display = Display(high: seq<Tweet>, medium: seq<Tweet>, low: seq<Tweet>, all: bool)

  function Segments(ts: seq<Tweet>): (r: Display)
    ensures multiset(r.high) + multiset(r.medium) + multiset(r.low) == multiset(ScoredOnly(ts))
    ensures r.all <==> ts != [] && forall i :: 0 <= i < |ts| ==> ts[i].score.None?
  {
    GroupsPartition(ts);
    ScoredOnlyEmpty(ts);
    var d := Display(Group(ts, High), Group(ts, Medium), Group(ts, Low), false);
    assert d.high == [] && d.medium == [] && d.low == [] <==> ScoredOnly(ts) == [];
    d.(all := ts != [] && d.high == [] && d.medium == [] && d.low == [])
  }

  // ---------------------------------------------------------------------------
  // v8.py: run_twitter_analysis_script

  /** `f"{s:>3}"`: right-aligned in a field of three. */
  function PadLeft(s: string, w: nat): (r: string)
    ensures |r| == if |s| < w then w else |s|
    ensures r[|r| - |s|..] == s
  {
    if |s| < w then seq(w - |s|, _ => ' ') + s else s
  }

  /** `text[:100] + ('...' if len(text) > 100 else '')`. */
  function Clip(text: string): (r: string)
    ensures |r| <= 103
    ensures |text| <= 100 ==> r == text
    ensures |text| > 100 ==> |r| == 103 && r[..100] == text[..100] && r[100..] == "..."
  {
    if |text| > 100 then text[..100] + "..." else text
  }

  /** The line printed for one of the top tweets. */
  function TopLine(t: Tweet): string {
    "[" + PadLeft(IntToString(ScoreKey(t)), 3) + "] " + t.username + ": " + Clip(t.text)
  }

  function TopLines(ts: seq<Tweet>): (r: seq<string>)
    ensures |r| == |ts|
    ensures forall i :: 0 <= i < |ts| ==> r[i] == TopLine(ts[i])
  {
    seq(|ts|, i requires 0 <= i < |ts| => TopLine(ts[i]))
  }

  function StepMessage(k: nat, what: string): string {
    "[STEP " + NatToString(k) + "/5] " + what
  }

  const ScrapeStepMessage := StepMessage(1, "Scraping and initial deduplicating tweets...")
  const NoTweetsMessage := "[ERROR] No tweets found or scraping failed for the given search term."

  /** What one analysis run streams and saves: the messages in order, and the
      trend and ranked tweets written to the results file (none when scraping
      found nothing). */
  datatype Analysis = Analysis(messages: seq<string>, trend: int, tweets: seq<Tweet>, saved: bool)

  /** The messages up to the scrape's result count. */
  function Opening(term: string, found: nat): (r: seq<string>)
    ensures |r| == 4
    ensures r[2] == ScrapeStepMessage
  {
    ["[START] Analyzing Twitter trend for: '" + term + "'",
     "[INFO] This may take a few minutes. Please wait...",
     ScrapeStepMessage,
     "[INFO] Scraping complete. Found " + NatToString(found) + " unique tweets."]
  }

  /** The messages of steps 2 to 5 and the summary, before the top tweets. */
  function Closing(term: string, trend: int, count: nat): (r: seq<string>)
    ensures |r| == 10
  {
    var file := ReplaceChar(term, ' ', '_');
    [StepMessage(2, "Saving unique raw tweets..."),
     "[INFO] Unique raw tweets saved to tweets/raw/" + file + "_raw_unique.yaml",
     StepMessage(3, "Calculating relevancy scores..."),
     StepMessage(4, "Sorting tweets by relevancy..."),
     StepMessage(5, "Saving scored results..."),
     "[INFO] Scored results saved to tweets/results/" + file + "_results.yaml",
     "\n[COMPLETE] Analysis for '" + term + "' completed successfully.",
     "[RESULTS] Overall trend relevancy score: " + IntToString(trend) + "/100",
     "[RESULTS] Found " + NatToString(count) + " relevant tweets.",
     "\n[TOP TWEETS]"]
  }

  /** `run_twitter_analysis_script`: reset the tracker, scrape with two retries,
      then analyse what was scraped. The scraper's own log lines never reach the
      stream: `collect_message` is a generator function, so calling it runs none
      of its body and `messages` stays empty. */
  function RunAnalysis(term: string, obs: nat -> V8Attempt, h: string -> int,
                       stopwords: bool, sim: Similarity): (r: Analysis)
    ensures r.saved <==> ScrapeV8(2, Reset(V8Steps), obs, h) != []
  {
    Analyse(term, ScrapeV8(2, Reset(V8Steps), obs, h), stopwords, sim)
  }

  /** The part of the run after scraping `raw`: score, rank, stream the
      progress messages. */
  function Analyse(term: string, raw: seq<Tweet>, stopwords: bool, sim: Similarity): (r: Analysis)
    ensures r.saved <==> raw != []
  {
    if raw == [] then Analysis(Opening(term, 0) + [NoTweetsMessage], 0, [], false)
    else
      var scored := Score(raw, term, stopwords, sim);
      var ranked := Ranked(scored.tweets);
      Analysis(Stream(term, |raw|, scored.trend, ranked), scored.trend, ranked, true)
  }

  /** The stream of a run that scraped `found` tweets and ranked them as `ranked`. */
  function Stream(term: string, found: nat, trend: int, ranked: seq<Tweet>): (r: seq<string>)
    ensures var n := if |ranked| < 5 then |ranked| else 5;
            |r| == 14 + n && r[2] == ScrapeStepMessage &&
            forall i :: 0 <= i < n ==> r[14 + i] == TopLine(ranked[i])
  {
    var n := if |ranked| < 5 then |ranked| else 5;
    var open := Opening(term, found);
    var r := open + Closing(term, trend, |ranked|) + TopLines(ranked[..n]);
    assert r[2] == open[2];
    assert forall i :: 0 <= i < n ==> r[14 + i] == TopLines(ranked[..n])[i];
    r
  }

  /** A run with nothing scraped announces step 1, ends its stream with the
      error line after five messages and saves nothing. */
  lemma RunAnalysisEmpty(term: string, stopwords: bool, sim: Similarity)
    ensures var r := Analyse(term, [], stopwords, sim);
            !r.saved && r.tweets == [] && r.trend == 0 &&
            |r.messages| == 5 && r.messages[2] == ScrapeStepMessage && r.messages[4] == NoTweetsMessage
  {
    var open := Opening(term, 0);
    var msgs := open + [NoTweetsMessage];
    assert msgs[2] == open[2];
  }

  /** A run that scraped tweets announces step 1, saves the scored tweets
      ranked by score with the scoring's trend, and ends its stream with one
      line for each of the first five of them. */
  lemma RunAnalysisSaves(term: string, raw: seq<Tweet>, stopwords: bool, sim: Similarity)
    requires raw != []
    ensures var sc := Score(raw, term, stopwords, sim);
            var r := Analyse(term, raw, stopwords, sim);
            r.saved && r.messages[2] == ScrapeStepMessage &&
            multiset(r.tweets) == multiset(sc.tweets) && SortedDesc(r.tweets, ScoreKey) && r.trend == sc.trend &&
            var n := if |r.tweets| < 5 then |r.tweets| else 5;
            |r.messages| == 14 + n &&
            forall i :: 0 <= i < n ==> r.messages[14 + i] == TopLine(r.tweets[i])
  {
  }

  /** No top line is for a tweet that ranks below one that was left out. */
  lemma TopLinesAreBest(ts: seq<Tweet>, i: int, j: int)
    requires SortedDesc(ts, ScoreKey)
    requires 0 <= i < 5 && i < j < |ts|
    ensures ScoreKey(ts[i]) >= ScoreKey(ts[j])
  {
  }

  // ---------------------------------------------------------------------------
  // twitter_redirect_anz.py: analyze_twitter_trend

  /** `save_to_yaml` of the scored results: the tracker's `file_operations`
      entry follows the write for file names containing `results.yaml` or
      `raw.yaml`, and is left alone for any other. */
  function RecordSave(t: Tracker, filename: string, written: bool): (r: Tracker)
    ensures !Contains(filename, "results.yaml") && !Contains(filename, "raw.yaml") ==> r == t
    ensures Contains(filename, "results.yaml") ==> FileOperations in r && (r[FileOperations] == Failed <==> !written)
  {
    if Contains(filename, "results.yaml") || Contains(filename, "raw.yaml") then
      Set(t, FileOperations, if written then Success else Failed)
    else t
  }

  /** The results file name: spaces become `_`, then `_results.yaml`. */
  function ResultsFile(term: string): (r: string)
    ensures Contains(r, "results.yaml")
  {
    var r := ReplaceChar(term, ' ', '_') + "_results.yaml";
    assert r[|r| - 12..] == "results.yaml";
    assert OccursAt(r, "results.yaml", |r| - 12);
    r
  }

  /** The returned dict, the tracker the `finally` reports on, its root cause,
      and the console display (absent when nothing was scraped). */
  datatype Report = Report(trend: int, tweets: seq<Tweet>, tracker: Tracker,
                           rootCause: Option<Step>, display: Option<Display>)

  /** `analyze_twitter_trend` of `twitter_redirect_anz.py`. `rawWritten` and
      `resultsWritten` say whether the two YAML writes succeed. */
  function AnalyzeAnz(term: string, a: AnzAttempt, h: string -> int, stopwords: bool, sim: Similarity,
                      rawWritten: bool, resultsWritten: bool): (r: Report)
    ensures r.rootCause == RootCause(r.tracker)
    ensures r.display.None? <==> r.tweets == [] && r.trend == 0
  {
    var s := ScrapeAnz(a, Reset(AnzSteps), h);
    if s.tweets == [] then Report(0, [], s.tracker, RootCause(s.tracker), None)
    else
      var t1 := RecordSave(s.tracker, ReplaceChar(term, ' ', '_') + "_raw_unique.yaml", rawWritten);
      var scored := Score(s.tweets, term, stopwords, sim);
      var t2 := Set(t1, NlpProcessing, scored.status);
      var ranked := Ranked(scored.tweets);
      var t3 := RecordSave(t2, ResultsFile(term), resultsWritten);
      assert ranked != [] by { assert |multiset(ranked)| == |scored.tweets|; }
      Report(scored.trend, ranked, t3, RootCause(t3), Some(Segments(ranked)))
  }

  /** A failed driver setup is the root cause the report names, and the
      analysis returns trend 0 and no tweets. */
  lemma AnzSetupIsRootCause(term: string, a: AnzAttempt, h: string -> int, stopwords: bool, sim: Similarity,
                            rawWritten: bool, resultsWritten: bool)
    requires a.SetupFault?
    ensures var r := AnalyzeAnz(term, a, h, stopwords, sim, rawWritten, resultsWritten);
            r.rootCause == Some(DriverSetup) && r.trend == 0 && r.tweets == []
  {
    AnzSetupFailure(a, Reset(AnzSteps), h);
  }

  /** A redirect makes `page_load` the root cause: driver setup succeeded, so
      nothing earlier in the pipeline order failed. */
  lemma AnzRedirectIsRootCause(term: string, a: AnzAttempt, h: string -> int, stopwords: bool, sim: Similarity,
                               rawWritten: bool, resultsWritten: bool)
    requires a.AnzBrowse? && a.load.Loaded? && a.load.page.url.Some? && a.load.page.title.Some?
    requires IsRedirectAnz(a.load.page.url.value, a.load.page.title.value)
    ensures AnalyzeAnz(term, a, h, stopwords, sim, rawWritten, resultsWritten).rootCause == Some(PageLoad)
  {
    AnzRedirectFails(a, Reset(AnzSteps), h);
    RootCausePageLoad(ScrapeAnz(a, Reset(AnzSteps), h).tracker);
  }

  /** With tweets scraped, the report ranks every scored tweet, and the
      `nlp_processing` status is the one scoring left. */
  lemma AnzRanksScored(term: string, a: AnzAttempt, h: string -> int, stopwords: bool, sim: Similarity,
                       rawWritten: bool, resultsWritten: bool)
    requires ScrapeAnz(a, Reset(AnzSteps), h).tweets != []
    ensures var s := ScrapeAnz(a, Reset(AnzSteps), h);
            var sc := Score(s.tweets, term, stopwords, sim);
            var r := AnalyzeAnz(term, a, h, stopwords, sim, rawWritten, resultsWritten);
            r.trend == sc.trend &&
            multiset(r.tweets) == multiset(sc.tweets) && SortedDesc(r.tweets, ScoreKey) &&
            NlpProcessing in r.tracker && r.tracker[NlpProcessing] == sc.status &&
            (r.tracker[FileOperations] == Failed <==> !resultsWritten)
  {
    var s := ScrapeAnz(a, Reset(AnzSteps), h);
    var t1 := RecordSave(s.tracker, ReplaceChar(term, ' ', '_') + "_raw_unique.yaml", rawWritten);
    var sc := Score(s.tweets, term, stopwords, sim);
    var t2 := Set(t1, NlpProcessing, sc.status);
    var t3 := RecordSave(t2, ResultsFile(term), resultsWritten);
    assert t3[NlpProcessing] == t2[NlpProcessing];
  }

  // ---------------------------------------------------------------------------
  // twitter_trend_analysis.py: analyze_twitter_trend

  datatype TaReport = TaReport(trend: int, tweets: seq<Tweet>)

  /** How a call ends: a `NameError` for an unbound name, another raise, or a
      return (of `None` when the body returns nothing). */
  datatype Outcome<T> = Unbound(name: string) | Raised | Returned(value: Option<T>)

  /** Some tweet has no `relevancy_score`, so the sort's key lookup raises. */
  predicate Unscored(ts: seq<Tweet>) { exists i :: 0 <= i < |ts| && ts[i].score.None? }

  /** `analyze_twitter_trend` of `twitter_trend_analysis.py` with both saves on:
      the scraper's raise propagates; nothing scraped, or nothing left after
      `remove_duplicates`, returns `None`; then the raw save, the sort (whose key
      lookup raises on an unscored tweet) and the results save, none of them
      guarded. `rawWritten` and `resultsWritten` say whether `save_to_yaml`
      succeeds for the two files. */
  function AnalyzeTa(term: string, open: TaOpen, passes: nat -> TaPassObs, dumped: bool, h: string -> int,
                     stopwords: bool, sim: Similarity, rawWritten: bool, resultsWritten: bool): (r: Outcome<TaReport>)
    ensures !r.Unbound?
    ensures r.Returned? && r.value.Some? ==> SortedDesc(r.value.value.tweets, ScoreKey)
    ensures r.Returned? && r.value.Some? ==>
              forall i :: 0 <= i < |r.value.value.tweets| ==> r.value.value.tweets[i].score.Some?
  {
    match ScrapeTa(open, passes, dumped, h)
    case None => Raised
    case Some(raw) =>
      if raw == [] then Returned(None)
      else
        var unique := RemoveDuplicates(raw, h);
        if unique == [] then Returned(None)
        else if !rawWritten then Raised
        else
          var (scored, trend) := TaScore(unique, term, stopwords, sim);
          if Unscored(scored) then Raised
          else if !resultsWritten then Raised
          else
            var ranked := Ranked(scored);
            forall i | 0 <= i < |ranked| ensures ranked[i].score.Some? {
              assert ranked[i] in multiset(scored);
            }
            Returned(Some(TaReport(trend, ranked)))
  }

  /** Every tweet the scraper returns has text. */
  lemma ScrapeTaTexted(open: TaOpen, passes: nat -> TaPassObs, dumped: bool, h: string -> int)
    ensures var raw := ScrapeTa(open, passes, dumped, h);
            raw.Some? ==> forall i :: 0 <= i < |raw.value| ==> raw.value[i].text != []
  {
    var raw := ScrapeTa(open, passes, dumped, h);
    if raw.Some? {
      forall i | 0 <= i < |raw.value| ensures raw.value[i].text != [] {
        assert Strip(raw.value[i].text) != [];
      }
    }
  }

  /** When the vectorizer yields one similarity per text, the analysis raises
      exactly when the scraper raised or a save failed after something was
      scraped — every tweet is then scored, so the sort cannot raise — and
      returns `None` exactly when the scraper returned nothing; a report ranks
      the scored tweets, the second `remove_duplicates` changing nothing. */
  lemma AnalyzeTaOutcome(term: string, open: TaOpen, passes: nat -> TaPassObs, dumped: bool, h: string -> int,
                         stopwords: bool, sim: Similarity, rawWritten: bool, resultsWritten: bool)
    requires forall docs :: sim(docs).Some? ==> |sim(docs).value| == |docs| - 1
    ensures var raw := ScrapeTa(open, passes, dumped, h);
            var r := AnalyzeTa(term, open, passes, dumped, h, stopwords, sim, rawWritten, resultsWritten);
            (r == Raised <==> raw.None? || (raw.value != [] && !(rawWritten && resultsWritten))) &&
            (r == Returned(None) <==> raw == Some([])) &&
            (r.Returned? && r.value.Some? ==>
               multiset(r.value.value.tweets) == multiset(TaScore(raw.value, term, stopwords, sim).0) &&
               r.value.value.trend == TaScore(raw.value, term, stopwords, sim).1)
  {
    var raw := ScrapeTa(open, passes, dumped, h);
    if raw.Some? && raw.value != [] && rawWritten {
      ScrapeTaTexted(open, passes, dumped, h);
      var scored := TaScore(raw.value, term, stopwords, sim).0;
      TaScoreCoversAll(raw.value, term, stopwords, sim);
      assert !Unscored(scored);
    }
  }

  // ---------------------------------------------------------------------------
  // twitter_trend_analysis1.py

  /** The names `twitter_trend_analysis1.py` binds at module level by import. */
  const Ta1Imports: set<string> :=
    {"time", "yaml", "BeautifulSoup", "nltk", "stopwords", "TfidfVectorizer",
     "cosine_similarity", "webdriver", "Options", "ChromeDriverManager"}

  /** The module-level names its `scrape_twitter_trends` looks up, in order. */
  const Ta1Uses: seq<string> := ["Options", "Service", "webdriver"]

  function FirstUnbound(uses: seq<string>, bound: set<string>): (r: Option<string>)
    ensures r.Some? ==> r.value in uses && r.value !in bound
    ensures r.None? <==> forall i :: 0 <= i < |uses| ==> uses[i] in bound
  {
    if uses == [] then None
    else if uses[0] !in bound then Some(uses[0])
    else
      var r := FirstUnbound(uses[1..], bound);
      assert forall i :: 1 <= i < |uses| ==> uses[i] == uses[1..][i - 1];
      r
  }

  /** `scrape_twitter_trends` of `twitter_trend_analysis1.py` given the names
      bound at module level: the first unbound name it looks up raises, and
      otherwise the body ends without a `return`. */
  function ScrapeTa1(bound: set<string>): (r: Outcome<seq<Tweet>>)
    ensures !r.Returned? || r.value.None?
  {
    match FirstUnbound(Ta1Uses, bound)
    case Some(n) => Unbound(n)
    case None => Returned(None)
  }

  /** Whatever the imports, the scraper never returns a list; as the file
      stands it raises `NameError` on `Service`. */
  lemma Ta1NeverScrapes()
    ensures ScrapeTa1(Ta1Imports) == Unbound("Service")
  {
    assert Ta1Uses[0] in Ta1Imports;
    assert Ta1Uses[1] !in Ta1Imports;
  }

  /** `analyze_twitter_trend` of `twitter_trend_analysis1.py`: the scraper's raise
      propagates; a `None` from it makes `remove_duplicates` iterate `None`, a
      `TypeError`. No report is ever produced. */
  function AnalyzeTa1(bound: set<string>): (r: Outcome<TaReport>)
    ensures !r.Returned?
  {
    match ScrapeTa1(bound)
    case Unbound(n) => Unbound(n)
    case _ => Raised
  }
}
