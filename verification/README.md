# Tweet trend scraper — a Dafny model of its decision core

The repository scrapes tweets for a search term from x.com with a headless
browser, deduplicates them, scores each tweet's relevancy to the term with
TF-IDF cosine similarity, ranks and saves the results, and serves them
through a small Flask app that streams progress and summarises past runs.
This project models the logic that decides what ends up in the results:

- **Text** — the Python string operations the code relies on: `strip`,
  `lower`, `split(...)[-1]` / `[0]` / `[1]`, `replace`, `in`, `str(n)` and
  `int(s)`.
- **Dedup** — the "keep the first item per key" filter. All of the
  deduplication passes are instances of it.
- **Ranking** — `sorted(..., reverse=True)` as a stable descending sort, and
  taking its first `n` items.
- **Tracker** — the `error_tracker` dictionary: reset, status updates, the
  critical-error sweep, and the root-cause walk in pipeline order.
- **Tweets** — per-article extraction:
  - the native id from a `/status/` link, or a fallback hash of the text;
  - the text, author and hashtag lookups with their fallbacks;
  - the per-pass skip rules;
  - the final text deduplication and `remove_duplicates`.
- **Scroll** — the scroll loops of `v8.py` and `twitter_redirect_anz.py`,
  which share one configurable fold, and the loop of
  `twitter_trend_analysis.py`.
- **Session** — `scrape_twitter_trends`:
  - the CAPTCHA and redirect checks;
  - the attempt body and the retry loop with its `finally` of `v8.py`;
  - the single attempt of `twitter_redirect_anz.py`;
  - the scraper of `twitter_trend_analysis.py`.
- **Scoring** — `calculate_relevancy_score` in its two variants: the
  tracker-writing one of `v8.py` / `twitter_redirect_anz.py`, and the
  tracker-less one of `twitter_trend_analysis.py`.
- **Pipeline** — `run_twitter_analysis_script` with its message stream, and
  the three `analyze_twitter_trend` coordinators, including the one in
  `twitter_trend_analysis1.py`, which can never produce a report. It also
  covers `display_by_segments` and the results file's tracker bookkeeping.
- **WebApp** — the helpers of `app.py`:
  - the progress percentages of the event stream;
  - `calculate_sentiment`;
  - the term ↔ file-name mapping;
  - the top tweets and the top trends;
  - the hashtag `Counter` with `most_common`;
  - the ordering of previous results.

The browser, the file system and scikit-learn are not modelled. Each one
becomes an observation the model is handed:
- the browser — datatypes recording what each driver call returned or
  raised: a `V8Attempt` per attempt, a `PassObs` per scroll pass, an
  `Article` per tweet element, and for `twitter_trend_analysis.py` a
  `TaOpen` for the set-up and a `TaPassObs` per pass;
- Python's `hash` — a function parameter `h`;
- the vectorizer plus cosine step — a `Similarity` function that returns one
  real per text, or a fault;
- each YAML write — a boolean that says whether it succeeded.

Each operation's contract states what the code promises. The lemmas tie
operations to their partners:
- the retry loop to what its attempts observed;
- a deduplication pass to its idempotence and its completeness;
- the sort to stability;
- file names back to terms;
- messages to progress percentages.

## Model

| member | source | states |
|---|---|---|
| Text.Lower | v8.py:659 | Lower-casing keeps the length and maps every character on its own. |
| Text.StripSpec | v8.py:659 | `strip()` returns the slice left between a blank prefix and a blank suffix. The slice neither starts nor ends with whitespace, which covers Python's ASCII whitespace including U+001C to U+001F. |
| Text.StripEmpty | v8.py:601 | A stripped text is empty exactly when the original is all whitespace. This is the `if text.strip()` guard. |
| Text.SeparatorsStripAway | v8.py:601 | A text of information separators (U+001C to U+001F) strips to nothing, so the guard treats it as blank. |
| Text.Find | app.py:43 | The position returned is the first occurrence of the pattern, and none is returned exactly when the pattern does not occur. |
| Text.LastPieceSpec | v8.py:545 | `split(sep)[-1]` is a suffix holding no separator. It differs from the whole exactly when a separator occurs, and is then preceded by one. |
| Text.LastPieceAfterFirst | v8.py:545 | When the appended separator is the first one and the tail holds none, `split(sep)[-1]` of `pre + sep + tail` is `tail`. |
| Text.BeforeFirst | v8.py:545 | `split(c)[0]` is the longest prefix without `c`. It is followed by `c` or ends the string. |
| Text.SecondPiece | app.py:45 | `split(sep)[1]` exists exactly when `sep` occurs, and holds no `sep`. |
| Text.SecondPieceSpec | app.py:45 | `split(sep)[1]` starts right after the first `sep`, has no occurrence of `sep` starting inside it, and ends at the next one or at the end. |
| Text.ReplaceChar | app.py:95 | The one-character `replace` keeps the length and swaps exactly the matching positions. |
| Text.ParseInt | app.py:45 | `int(s)` succeeds only on optionally signed digits inside whitespace. On plain digits it yields their value. |
| Text.ParseMinus | app.py:45 | `int()` of a minus sign followed by digits is the negated value of the digits. |
| Dedup.KeepFirst | v8.py:654-669 | The seen-set filter keeps only items whose keys are admissible and unseen, and the kept keys are pairwise distinct. |
| Dedup.KeepFirstSubseq | v8.py:654-669 | The filter only deletes: its output is a subsequence of its input. |
| Dedup.KeepFirstComplete | v8.py:654-669 | Every admissible, unseen key of the input is represented in the output. |
| Dedup.KeepFirstKeepsFirst | v8.py:654-669 | The item kept for a key is the first input item that carries that key. |
| Dedup.KeepFirstFixes | v8.py:654-669 | A list with admissible, unseen, distinct keys passes the filter unchanged. |
| Dedup.KeepFirstIdempotent | v8.py:654-669 | Filtering the output again removes nothing. |
| Ranking.SortDesc | v8.py:745-746 | `sorted(reverse=True)` yields a permutation of the input with non-increasing keys. |
| Ranking.SortDescStable | v8.py:745-746 | Items of equal key keep their input order. |
| Ranking.TopN | app.py:108-112 | The first `n` of the sorted list: `min(n, len)` items, non-increasing, drawn from the input. |
| Ranking.TopNDominates | app.py:108-112 | No item left out outranks an item that was kept. |
| Ranking.TopNStable | app.py:186 | Among items of one key, those kept are the first ones of that key in the input, in input order. |
| Ranking.Insert | v8.py:745-746 | An insertion step keeps the list sorted and adds exactly the one item. |
| Ranking.WithKey | v8.py:745-746 | The run of items with one key holds only that key and is no longer than the list. |
| Tracker.Reset | v8.py:703-704 | After the reset, exactly the tracker's steps are present, each `not_started`. |
| Tracker.Set | v8.py:518 | A status update changes one step and keeps every other entry. |
| Tracker.Sweep | v8.py:676-682 | The critical handler marks each in-progress scraping step `failed` and leaves every other entry alone. |
| Tracker.SweepSettles | v8.py:676-682 | After the sweep no scraping step is in progress, so sweeping again changes nothing. |
| Tracker.FirstFailed | twitter_redirect_anz.py:681-692 | Returns the first step in the given order that is recorded as failed, or none exactly when no listed step failed. |
| Tracker.RootCause | twitter_redirect_anz.py:679-692 | The root cause is a failed step of the pipeline order, and is absent exactly when no step failed. |
| Tracker.RootCauseIsFirst | twitter_redirect_anz.py:681-692 | No step before the root cause in pipeline order failed. |
| Tracker.RootCausePageLoad | twitter_redirect_anz.py:679-692 | A failed page load is the root cause whenever driver setup did not fail. |
| Tweets.StatusId | v8.py:541-551 | The id read from a link is all digits and comes from a link holding `/status/`. |
| Tweets.StatusIdOfLink | v8.py:541-551 | A link `base/status/<digits>[?query]` yields exactly its digits. |
| Tweets.NativeId | v8.py:541-551 | Any id the status-link loop finds is all digits. |
| Tweets.NativeIdFirstLink | v8.py:541-551 | The first qualifying link gives the id, provided no earlier link raised. |
| Tweets.NativeIdAbsent | v8.py:541-551 | No id is found exactly when every qualifying link comes after a raise. |
| Tweets.FallbackNeverNative | v8.py:573-580 | A fallback id starts with `hash_`, so it never equals a native all-digit id. |
| Tweets.TextOf | v8.py:558-571 | The text is the first primary div, else the first fallback div when there is no primary one. It is absent exactly when the lookups raised or both are empty. |
| Tweets.Username | v8.py:582-593 | A raise gives `unknown_user_exception`. Without a handle span, the name is a single line. |
| Tweets.Hashtags | v8.py:595-599 | The hashtags are the link texts starting with `#`, in order, each `#` text kept as many times as it occurs among the links. A raise gives none. |
| Tweets.Extract | v8.py:558-604 | An article is skipped exactly when it has no text, a blank text, or an id already seen. Otherwise its text, id, author and tags come from the lookups. |
| Tweets.ExtractPass | v8.py:530-604 | A pass appends tweets with ids that are fresh and pairwise distinct and texts that are not blank. |
| Tweets.ExtractPassCovers | v8.py:530-604 | After a pass, every article with non-blank text has its id either seen before or added by the pass. |
| Tweets.TaId | twitter_trend_analysis.py:93-108 | An id is read exactly when the HTML is marked as a tweet and holds `data-tweet-id="`, or, lacking `data-tweet-id` altogether, holds `data-item-id="`. The id holds no quote. |
| Tweets.TaIdOfTweetId | twitter_trend_analysis.py:96-101 | Tweet-marked HTML whose first `data-tweet-id="` is followed by digits and a quote yields exactly those digits. |
| Tweets.TaUsername | twitter_trend_analysis.py:126-133 | The author is a single line. |
| Tweets.TaExtract | twitter_trend_analysis.py:93-143 | An article is skipped exactly when its non-empty id is already collected, or its text is missing or blank. |
| Tweets.TaExtractPass | twitter_trend_analysis.py:84-154 | A pass keeps the collected list as a prefix, and keeps non-empty ids unique and texts non-blank. |
| Tweets.FinalDedup | v8.py:654-669 | The final pass keeps a subsequence whose lower-cased stripped texts are non-empty and distinct. Every non-empty such text of the input is represented. |
| Tweets.FinalDedupIdempotent | v8.py:654-669 | The final text pass is idempotent. |
| Tweets.StripDedup | twitter_trend_analysis.py:176-183 | The same guarantees as the final pass, keyed on the stripped text with case kept. |
| Tweets.RemoveDuplicates | twitter_trend_analysis.py:229-240 | The output is a subsequence with distinct `hash(text)` values, and every hash of the input is represented. |
| Tweets.RemoveDuplicatesKeepsFirst | twitter_trend_analysis.py:229-240 | The tweet kept for a hash is the first one that carries it. |
| Tweets.RemoveDuplicatesIdempotent | twitter_trend_analysis.py:229-240 | `remove_duplicates` is idempotent. |
| Scroll.Start | v8.py:510-518 | The loop starts with nothing collected, no passes and no `break`, and with the invariant established. |
| Scroll.Abort | v8.py:630-639 | A `WebDriverException` stops the loop and marks `page_scroll` failed. Any other raise counts as an empty pass and marks extraction `partial`. |
| Scroll.Pass | v8.py:520-639 | One pass spends one request and only appends. It stops when the empty-pass count reaches the threshold, and on an unchanged height only after the first pass and with more than one empty pass. A raise before or during the article loop adds no tweets. |
| Scroll.PassHeightFault | v8.py:601-639 | A raise from the height script comes after the article loop and keeps the pass's tweets. A `WebDriverException` then stops the loop, and any other raise counts one more empty pass. If the empty-pass threshold is already reached, the loop stops before the script runs. |
| Scroll.PassInv | v8.py:520-639 | A pass keeps the invariant: `seen_tweet_ids` is exactly the set of collected ids, which are distinct. |
| Scroll.Run | v8.py:520-640 | The loop ends within the pass limit, spends one request per pass, never passes the rate limit and only appends. |
| Scroll.PassTrackerFrame | v8.py:520-639 | A pass writes no tracker entry other than `page_scroll` and `tweet_extraction`. |
| Scroll.RunTrackerFrame | v8.py:520-640 | The whole loop writes no tracker entry other than those two. |
| Scroll.ScrollLoop | v8.py:520-640 | The `while` loop computes the fold and ends within the pass limit. |
| Scroll.V8Bounds | v8.py:513-520 | `v8.py` runs at most three passes and makes at most five requests. |
| Scroll.V8NeverRateLimited | v8.py:625-628 | Three passes never reach the limit of five, so the rate-limit `break` cannot fire. |
| Scroll.FlatPageStopsAfterTwo | v8.py:619-624 | A page whose height never changes and that yields nothing stops after exactly two passes, in both scrapers. |
| Scroll.ScrollStatusAsWritten | v8.py:641 | The status written after the loop is never `failed`. |
| Scroll.DriverLossReportedAsSuccess | v8.py:630-641 | A `WebDriverException` in the first pass is recorded as `failed` and then overwritten with `success`. |
| Scroll.ScrollStatus | twitter_redirect_anz.py:354-367 | The intended status is `failed` exactly when a `WebDriverException` ended the loop, and otherwise agrees with the code. |
| Scroll.TaPass | twitter_trend_analysis.py:75-164 | One pass only appends. New tweets reset the empty count, and an empty list or nothing new increments it. It breaks exactly when the height did not change or the count reached three. It raises exactly when the scroll or height script raised, which ends the loop. |
| Scroll.TaRun | twitter_trend_analysis.py:69-164 | The loop counts at most 25 passes and ends on a `break`, a raise or the limit. It ends in a raise exactly when it stopped at a pass whose scripts raised. |
| Scroll.TaScrollLoop | twitter_trend_analysis.py:69-164 | The `while` loop computes the fold within 25 passes. |
| Scroll.TaStopsOnFlatFirstPass | twitter_trend_analysis.py:157-160 | A first pass with an unchanged height ends the loop at once, without a raise. There is no first-pass exemption. |
| Scroll.TaRaisesAtPass | twitter_trend_analysis.py:77 | A running loop whose next pass raises in a script ends at that pass, in a raise. |
| Session.CaptchaInMeaning | v8.py:94-113 | `detect_captcha` answers yes exactly when a marker is found before any query raises, or when all queries clear and the URL is the CAPTCHA flow. |
| Session.V8Load | v8.py:443-507 | The load stage proceeds exactly on a search page free of CAPTCHA. A CAPTCHA returns `[]`, and a failed log read reaches the critical handler. |
| Session.ScrapeStage | v8.py:510-674 | The scroll stage returns tweets whose normalised texts are non-empty and distinct. |
| Session.ScrapeStageTracker | v8.py:630-652 | The intended behaviour of the first finding, not the code's: `page_scroll` ends failed exactly when a `WebDriverException` ended the loop, where the code overwrites that at line 641. As the code has it, deduplication is skipped exactly when nothing was collected. |
| Session.ScrapeStageFrame | v8.py:510-674 | The scroll stage leaves `page_load` untouched. |
| Session.V8AttemptBody | v8.py:329-682 | An attempt acquires a driver unless every strategy fails. It returns exactly on a CAPTCHA or a completed scrape, crashes exactly on the listed raises, and spends requests only when returning. |
| Session.BrowseBody | v8.py:443-674 | After the cookie step: returns on a CAPTCHA or a readable start height on the search page, and otherwise continues or crashes as listed. |
| Session.Finally | v8.py:683-689 | The `finally` quits the handle in `driver`. That is the new handle when the attempt acquired one, and otherwise the previous attempt's handle. |
| Session.NextAttempt | v8.py:682-693 | The attempt counter advances, and the delay is taken only after a crash that has a successor. |
| Session.V8Step | v8.py:329-682 | The attempt body with the hash fixed ends every attempt the way the loop relies on. |
| Session.Retry | v8.py:328-696 | The retry loop always ends with a result, within `max_retries` attempts, and only appends to the handles quit. |
| Session.RetryStopsAtFirstReturn | v8.py:328-696 | The call ends at the first attempt that returns. Exhaustion gives `[]` after attempt `max_retries` without spending requests. |
| Session.RetrySleeps | v8.py:676-693 | The call sleeps once per crashed attempt that has a successor, and for nothing else. |
| Session.RetryQuits | v8.py:683-689 | Every attempt that acquired a handle has it quit. |
| Session.RetryLoop | v8.py:328-696 | The `while attempt <= max_retries` loop computes the fold. |
| Session.RetryResult | v8.py:654-696 | Whatever the loop returns has non-empty, distinct normalised texts. |
| Session.ScrapeV8 | v8.py:310-696 | `scrape_twitter_trends` returns tweets with non-empty, distinct normalised texts. |
| Session.CaptchaEndsTheCall | v8.py:460-468 | A CAPTCHA returns `[]` at once, whatever attempts remain. |
| Session.ExhaustionReturnsEmpty | v8.py:695-696 | When no attempt returns, every attempt runs and the call returns `[]`. |
| Session.NoSleepWithoutCrash | v8.py:395-507 | Driver, cookie, redirect and timeout failures use `continue`: a call without crashes never sleeps. |
| Session.StaleHandleQuitTwice | v8.py:322-406 | `driver` is not reset between attempts, so a failed acquisition after a cookie failure quits the old handle a second time. |
| Session.ExhaustedSpendsNoRequests | v8.py:326 | `requests_made` is shared across attempts, yet an exhausted call never spent a request. |
| Session.ScrapeAnz | twitter_redirect_anz.py:100-422 | Every failure returns `[]`. `quit` is called exactly when a handle was assigned. Tweets come only from a search page with a readable height, deduplicated by normalised text. |
| Session.AnzSetupFailure | twitter_redirect_anz.py:108-148 | A failed driver setup returns `[]` with `driver_setup` failed. |
| Session.AnzRedirectFails | twitter_redirect_anz.py:152-198 | `page_load` fails exactly on a redirect. A redirect returns `[]` after a successful driver setup. |
| Session.ScrapeTa | twitter_trend_analysis.py:38-188 | The scraper raises exactly when the set-up raised, the loop ended in a script raise, or the page dump or quit failed. Otherwise it returns texted tweets with distinct hashes, on which `remove_duplicates` is a no-op. |
| Session.ScrapeTaRaisesOnFirstPass | twitter_trend_analysis.py:75-77 | A scroll-script raise on the first pass makes the whole scrape raise. |
| Scoring.Trunc | v8.py:259 | `int()` truncates toward zero. |
| Scoring.Percent | v8.py:259 | `int(score * 100)` of a similarity in [0, 1] lies in [0, 100]. |
| Scoring.TrendInRange | v8.py:262 | The trend, the truncated mean times 100, lies in [0, 100]. |
| Scoring.AssignAsWritten | v8.py:258-260 | The positional write-back changes nothing but scores. |
| Scoring.Assign | v8.py:258-260 | The intended write-back changes nothing but scores. |
| Scoring.AssignSpec | v8.py:218 | The tweet that contributed the k-th text receives the k-th similarity. Untexted tweets keep their scores. |
| Scoring.AssignAgree | v8.py:218 | When every tweet has text, the two write-backs agree. |
| Scoring.ScoreLandsOnBlankTweet | v8.py:258-260 | With an empty-text tweet first, the code scores the empty tweet and leaves the texted one unscored. |
| Scoring.OneDocumentMeans | v8.py:229 | The `len(set(all_docs)) <= 1` guard holds exactly when every text equals the term. |
| Scoring.TextsAllTerm | v8.py:218-229 | Every texted tweet's text is the term exactly when every entry of `texts` is. |
| Scoring.Heuristics | v8.py:231-240 | There is one heuristic score per text. |
| Scoring.Score | v8.py:195-275 | No tweets gives `([], 0)` and `skipped`. Otherwise scoring changes nothing but scores. |
| Scoring.ScoreOnSimilarity | v8.py:251-266 | When the vectorizer yields similarities, the tweet behind the k-th text scores the k-th similarity as a percentage, other tweets keep their score, the trend is the truncated mean, and the status is `success`. |
| Scoring.ScoreOnFault | v8.py:267-275 | A stopword or vectorizer failure gives unscored tweets 0, a trend of 0, and `nlp_processing` failed. |
| Scoring.ScoreWithoutText | v8.py:219-225 | Without text, unscored tweets get 0, the trend is 0, and `nlp_processing` is skipped. |
| Scoring.ScorePartialIff | v8.py:229-244 | The status is `partial` exactly when every text equals the term. |
| Scoring.ScoreDegenerate | v8.py:229-244 | The intended behaviour of the third finding: in the degenerate branch every texted tweet scores 100, any other keeps its score, and the trend is 100. |
| Scoring.DegenerateLandsOnBlankTweet | v8.py:233-239 | With an empty-text tweet first, the code's heuristic loop scores the empty tweet 100 and leaves the texted one unscored; the model scores the texted one. |
| Scoring.HeuristicsOnTerm | v8.py:231-241 | Texts equal to the term all score 100, with a heuristic trend of 100. |
| Scoring.HeuristicTrendConst | v8.py:241 | The truncated mean of equal values is that value. |
| Scoring.AssignInRange | v8.py:258-260 | Writing back values in [0, 100] keeps scores in [0, 100]. |
| Scoring.ScoreInRange | v8.py:195-275 | With similarities in [0, 1], every score and the trend lie in [0, 100]. |
| Scoring.TaScore | twitter_trend_analysis.py:190-227 | No tweets gives `([], 0)`. Otherwise only scores change. |
| Scoring.TaScoreOnSimilarity | twitter_trend_analysis.py:213-227 | When the vectorizer yields similarities, more of them than tweets zeroes every score. Otherwise the tweet behind the k-th text scores the k-th similarity as a percentage, other tweets keep their score, and the trend is the truncated mean. |
| Scoring.TaScoreNeutral | twitter_trend_analysis.py:207-211 | Identical documents give every tweet 50, with a trend of 50. |
| Scoring.TaScoreOnFault | twitter_trend_analysis.py:222-227 | A fault overwrites every score with 0, with a trend of 0. |
| Scoring.TaScoreWithoutText | twitter_trend_analysis.py:199-202 | Without text the tweets come back unchanged, with a trend of 0. |
| Scoring.TaScoreCoversAll | twitter_trend_analysis.py:214-221 | With one similarity per text and every tweet texted, every tweet comes back scored. |
| Pipeline.Ranked | v8.py:745-746 | The ranking is a permutation with non-increasing `relevancy_score` (default 0). |
| Pipeline.RankedStable | v8.py:745-746 | Tweets of equal score keep their order. |
| Pipeline.SegmentsPartition | twitter_redirect_anz.py:561-565 | The three segment conditions partition the integers. |
| Pipeline.Group | twitter_redirect_anz.py:571 | A group holds only scored tweets in its segment. |
| Pipeline.GroupsPartition | twitter_redirect_anz.py:561-571 | The groups together hold each scored tweet exactly once. |
| Pipeline.Segments | twitter_redirect_anz.py:558-593 | The display partitions the scored tweets, and falls back to listing all tweets exactly when there are tweets and none is scored. |
| Pipeline.PadLeft | v8.py:769 | `f"{s:>3}"` right-aligns `s` in a field of width 3. |
| Pipeline.Clip | v8.py:767 | A text of at most 100 characters is shown whole; a longer one is cut to its first 100 characters followed by `...`. |
| Pipeline.TopLines | v8.py:761-769 | There is one printed line per top tweet, in order. |
| Pipeline.Opening | v8.py:706-727 | The first four messages put step 1 third. |
| Pipeline.RunAnalysis | v8.py:698-775 | A run saves results exactly when the scraper found tweets. |
| Pipeline.Analyse | v8.py:727-775 | The part after scraping saves exactly when something was scraped. |
| Pipeline.Stream | v8.py:706-769 | The stream has 14 fixed messages, then one line for each of at most five top tweets. |
| Pipeline.RunAnalysisEmpty | v8.py:729-731 | An empty scrape streams five messages ending in the error line, and saves nothing. |
| Pipeline.RunAnalysisSaves | v8.py:734-769 | A non-empty scrape saves the scored tweets ranked by score with the scoring's trend, and streams their top five. |
| Pipeline.TopLinesAreBest | v8.py:761-769 | No tweet printed ranks below one that was left out. |
| Pipeline.RecordSave | twitter_redirect_anz.py:545-554 | For a results file, `file_operations` fails exactly when the write fails. A file that is neither a results nor a raw file leaves the tracker untouched. |
| Pipeline.ResultsFile | twitter_redirect_anz.py:651-655 | The results file name contains `results.yaml`. |
| Pipeline.AnalyzeAnz | twitter_redirect_anz.py:596-711 | The reported root cause is that of the final tracker. The display is absent exactly when the result is empty. |
| Pipeline.AnzSetupIsRootCause | twitter_redirect_anz.py:617-692 | A failed driver setup is the root cause, and the result is empty. |
| Pipeline.AnzRedirectIsRootCause | twitter_redirect_anz.py:617-692 | A redirect makes `page_load` the root cause. |
| Pipeline.AnzRanksScored | twitter_redirect_anz.py:642-664 | The report ranks the scored tweets with the scoring's trend. `nlp_processing` is the scoring's status, and `file_operations` failed exactly when the results write failed. |
| Pipeline.AnalyzeTa | twitter_trend_analysis.py:272-317 | The analysis never raises `NameError`. A returned report is sorted by score, and every tweet in it carries a score, since the sort raises otherwise. |
| Pipeline.ScrapeTaTexted | twitter_trend_analysis.py:176-188 | Every tweet of a scrape that returned has text. |
| Pipeline.AnalyzeTaOutcome | twitter_trend_analysis.py:272-317 | With one similarity per text, the analysis raises exactly when the scraper raised, or a YAML save failed after something was scraped. It returns `None` exactly when the scraper returned nothing. Otherwise its report ranks the scored tweets with the scorer's trend. |
| Pipeline.FirstUnbound | twitter_trend_analysis1.py:130-142 | The first looked-up name not bound at module level, or none exactly when all are bound. |
| Pipeline.ScrapeTa1 | twitter_trend_analysis1.py:130-142 | The scraper never returns a list. |
| Pipeline.Ta1NeverScrapes | twitter_trend_analysis1.py:26-36 | With the file's imports, the scraper raises `NameError` on `Service`. |
| Pipeline.AnalyzeTa1 | twitter_trend_analysis1.py:208-244 | The analysis never returns a report. |
| WebApp.RoundHalfEven | app.py:246-250 | `round` takes the nearest integer, with halves going to the even one. |
| WebApp.TallyTotal | app.py:235-244 | Each tweet lands in one bucket, so the counts sum to the number of tweets. |
| WebApp.TallyCounts | app.py:231-240 | Each count is the number of tweets in its bucket. |
| WebApp.CalculateSentiment | app.py:220-250 | No tweets gives 33/34/33. Every share lies in [0, 100]. |
| WebApp.ShareInRange | app.py:246-250 | A rounded share of a whole is a percentage. |
| WebApp.RoundedSharesSum | app.py:246-250 | Three rounded shares sum to between 99 and 101. |
| WebApp.SentimentShares | app.py:242-250 | Each share is the rounded percentage of its count, and the three sum to between 99 and 101. |
| WebApp.ParseStep | app.py:43-48 | A step number is found only in a message containing `[STEP `. |
| WebApp.Percentage | app.py:51 | The percentage never exceeds 95, and is non-negative for a non-negative step. |
| WebApp.Progress | app.py:41-51 | There is one percentage per message. |
| WebApp.Events | app.py:41-63 | There is one event per message, each at most 95, then a completion event of 100. |
| WebApp.ProgressBounded | app.py:51 | No message's percentage exceeds 95. |
| WebApp.ProgressFollowsLatest | app.py:37-51 | The percentage after a message is that of the latest step number so far. |
| WebApp.ProgressAtMessage | app.py:43-51 | A message with a step number shows that step's percentage. Any other message repeats the previous percentage. |
| WebApp.StepMessageParses | app.py:45 | A `[STEP k/5]` message parses to `k`. |
| WebApp.ParseNatToString | app.py:45 | `int(str(k)) == k`. |
| WebApp.ProgressAtStep | app.py:43-51 | A step message streams its step's percentage. |
| WebApp.StepsProgress | app.py:43-51 | Step messages 1 to 5 at their places stream 20, 40, 60, 80 and 95. |
| WebApp.StreamSteps | v8.py:711-749 | The five step messages sit at positions 2, 4, 6, 7 and 8 of the stream. |
| WebApp.StreamProgress | app.py:37-63 | A run that scraped tweets streams 20, 40, 60, 80 and 95 at its steps, whatever the term, and ends on 100. |
| WebApp.RunProgress | app.py:37-63 | The same holds for the stream of any non-empty scrape. |
| WebApp.NegativeStepInTerm | app.py:43-51 | A term carrying `[STEP -k/` drives the percentage shown with the opening message below zero. |
| WebApp.ParseNegative | app.py:45 | `int("-" + str(k)) == -k`. |
| WebApp.FileOf | app.py:95 | Every file name ends in `_results.yaml`. |
| WebApp.TermRoundTrip | app.py:83-95 | The listing recovers every term that has no `_` and does not contain `" results.yaml"`. |
| WebApp.SuffixTermLost | app.py:83-95 | A term ending in `" results.yaml"` comes back without that ending. |
| WebApp.TopTweets | app.py:108-112 | The top ten tweets: exactly ten, or all when there are fewer, sorted by score, drawn from the input. |
| WebApp.TopTweetsDominate | app.py:108-112 | No tweet left out of the top ten scores more than one listed. |
| WebApp.PutSpec | app.py:140 | Assigning a key sets its count and keeps every other term's entry. |
| WebApp.PutKeepsPlace | app.py:140 | Assigning an existing key changes only that entry's count and leaves every entry in its place. |
| WebApp.PutAppends | app.py:140 | Assigning a new key appends its entry after all the others. |
| WebApp.PutDistinct | app.py:140 | Assigning keeps terms distinct. |
| WebApp.TermCounts | app.py:134-140 | The term dict has one entry per term. |
| WebApp.TermCountsLast | app.py:134-140 | A term's entry is the last file that names it. |
| WebApp.TermCountsFromFiles | app.py:134-140 | Every entry of the dict comes from a file. |
| WebApp.TopTrends | app.py:146-147 | The top trends are exactly ten entries of the dict, or all when it has fewer, sorted by count. |
| WebApp.TopTrendsDominate | app.py:146-147 | No term left out has more tweets than one listed. |
| WebApp.Counter | app.py:177-181 | Each tag has one entry, counting its occurrences, every tag occurs, and entries come in the order their tags first occur. |
| WebApp.DistinctOrder | app.py:177-181 | The counter's entries come in the order their tags first occur. |
| WebApp.DistinctSpec | app.py:177-181 | The first-seen walk counts each unseen tag once, with its occurrences. |
| WebApp.MostCommon | app.py:186 | `most_common(50)`: exactly fifty entries, or all when there are fewer tags; distinct tags with exact counts, by count; the entries of one count are the first ones of that count in the counter's first-seen order. |
| WebApp.MostCommonDominates | app.py:186 | A tag left out of `most_common(50)` occurs no more often than any tag listed. |
| WebApp.PreviousResults | app.py:216 | Results sorted newest first form a permutation, with entries of the same minute kept in listing order. |

## Left out

- Browser driving is not modelled: the WebDriver creation strategies, ChromeDriver version detection, the navigator patches' JavaScript, mouse simulation, waits and `random` sleeps. Each is reduced to what it returned or whether it raised.
- `load_cookies`, `save_debug_html`, the `debug.html` dump of `twitter_trend_analysis.py` and the YAML writes are file I/O. Their success is a boolean parameter, and their content is not modelled.
- TF-IDF vectorisation and cosine similarity (scikit-learn, NLTK stopwords) are an oracle `Similarity` returning one real per text or a fault. Floats are modelled as exact reals.
- Scoring.Percent: states only the range. Float rounding of `score * 100` is not modelled.
- Python's `hash` is a function parameter. Its per-process randomisation is not modelled.
- Strings are ASCII: `strip`, `lower` and `isdigit` know only the ASCII members of Python's whitespace, case and digit classes. For whitespace these are space, tab through carriage return, and U+001C to U+001F; non-ASCII whitespace such as U+00A0 is not stripped. `int()` does not accept `_` separators.
- Text.ParseInt: states the shape of accepted input and the value of plain digits. Signed values are given by `Text.ParseMinus` only for `-`.
- Tweets.Username: states only the fault sentinel and that the block fallback yields one line. Which source wins is the function's own case split.
- Tweets.TaUsername: states only that the author is one line.
- WebApp.CalculateSentiment: rounds the exact quotient `100 * count / total`. The float product `(count / total) * 100` can fall just off a `.5` boundary; that is not modelled.
- The `re.findall(r'#\w+', text)` hashtag extraction in `app.py` is not modelled. The counter takes the flattened tag list of all tweets, hashtag fields and text tags alike.
- The app's routes, the directory listing, `os.stat` times and JSON/SSE formatting are not modelled. File modification dates become an integer stamp that orders the same way.
- The `except` arms of `app.py` and `run_twitter_analysis_script` that turn an unexpected exception into an error message are not modelled.
- `twitter_redirect_anz.py` and `twitter_trend_analysis.py` are modelled with `save_raw` and `save_scored` both true, their defaults.
- `select_random_search_term`, `run.py`, `update_dependencies.py` and `static/script.js` are outside the decision core and are not part of this model.
- The `len(all_docs) <= 1` arm of the relevancy scoring is unreachable: `texts` is non-empty there, so `all_docs` has at least two entries. It is left out.
- The `display_by_segments` of `twitter_trend_analysis.py` is console output. Its key lookups cannot raise once the sort's have not: `Pipeline.AnalyzeTa` raises on an unscored tweet before it.
- Session.ScrapeStage: writes the intended `page_scroll` status of the first finding, not the code's. After a `WebDriverException` ends a loop that had completed a pass, line 641 of `v8.py` and line 367 of `twitter_redirect_anz.py` report `success`; the model reports `failed`. `Session.ScrapeV8`, `Session.ScrapeAnz` and `Session.ScrapeStageTracker` inherit this; the tweets returned are the same either way.
- Pipeline.AnalyzeAnz: builds on the corrected scroll status, so after such a run its root cause can name `page_scroll` where the code's names a later step or nothing.
- WebApp.Percentage: computes `20 * step`, which equals the float `int((step / 5) * 100)` for every step from 0 to 5 that the stream produces. For some negative steps the float product rounds below the integer: step -23 gives -459 in Python and -460 here.
- The scraper's own log lines never reach the event stream. `collect_message` contains `yield`, so calling it runs none of its body. The model streams none of them, following the code, although the comments at lines 714 and 723 of `v8.py` say the scraper's messages are passed along.

## Findings

| source | as written | input that shows it | evidently intended | confidence | as-written member | corrected member |
|---|---|---|---|---|---|---|
| v8.py:641 | After the loop (here and at line 367 of `twitter_redirect_anz.py`), `page_scroll` is set to `success` whenever a pass ran, overwriting the `failed` the `WebDriverException` handler wrote | The first scroll pass raises `WebDriverException`; the tracker ends with `page_scroll: success` | Keep `failed` when the loop ended by losing the driver, so the root-cause report can name `page_scroll` | not executed | Scroll.DriverLossReportedAsSuccess | Scroll.ScrollStatus |
| v8.py:258-260 | Here and at lines 506-509 of `twitter_redirect_anz.py` and 217-218 of `twitter_trend_analysis.py`, the i-th similarity is written to `tweets[i]`, but it was computed for the i-th entry of `texts`, which skips tweets without text | Tweets `[{text: ""}, {text: "ai"}]` with similarity 0.8: the empty tweet gets 80, and "ai" gets no score | Write each similarity to the tweet that contributed that text | not executed | Scoring.ScoreLandsOnBlankTweet | Scoring.AssignSpec |
| v8.py:233-239 | Here and at lines 476-483 of `twitter_redirect_anz.py`, the heuristic branch writes the score of the i-th entry of `texts` to `tweets[i]`, the same positional write-back | Tweets `[{text: ""}, {text: "ai"}]` with term "ai": the empty tweet gets 100, and "ai" gets no score | Write each heuristic score to the tweet that contributed that text | not executed | Scoring.DegenerateLandsOnBlankTweet | Scoring.ScoreDegenerate |

The model records the intended behaviour in every case:
- `Session.ScrapeStage` writes `Scroll.ScrollStatus`.
- The scorers write back through `Scoring.Assign`, in the similarity branch and in the heuristic branch alike.

In the pipelines every scraped tweet has non-blank text, so the two
write-backs agree there (`Scoring.AssignAgree`).
