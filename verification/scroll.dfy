/** The scroll-and-extract loop. `v8.py` and `twitter_redirect_anz.py` share one
    loop body and differ only in their limits; `twitter_trend_analysis.py` has
    its own loop with a different stop rule. Each loop is a fold over the
    browser's per-pass observations, plus a method running it as a `while` loop. */
module Scroll {
  import opened Text
  import opened Dedup
  import opened Tweets
  import opened Tracker

  /** A raise inside a pass: a `WebDriverException` or any other exception. */
  datatype Fault = DriverFault | OtherFault

  /** `document.body.scrollHeight` after the pass, or a raise reading it. */
  datatype HeightProbe = Height(h: int) | HeightFault(f: Fault)

  /** The first-pass page dump taken when no articles are found: written, or
      `page_source` raised, or the file write raised. */
  datatype Dump = DumpOk | SourceFault(f: Fault) | WriteFault

  /** What the browser reports for one pass. */
  datatype PassObs =
    | ScrollFault(f: Fault)            // the scroll script, a wait or the mouse simulation raised
    | ListFault(f: Fault)              // the article query raised
    | Rendered(articles: seq<Article>, dump: Dump, height: HeightProbe)

  /** The limits of one scraper; `dumpGuarded` says whether a failing dump write
      is swallowed (`save_debug_html` in `v8.py`) or reaches the pass handler. */
  datatype Config = Config(maxPasses: nat, threshold: nat, rateLimit: Option<nat>, dumpGuarded: bool)

  const V8Config: Config := Config(3, 3, Some(5), true)
  const AnzConfig: Config := Config(20, 4, None, false)

  /** Why the loop left by `break`; `Going` while it has not. */
  datatype Stop = Going | NoNewTweets | EndOfPage | RateLimited | DriverLost

  /** The loop variables: collected tweets, `seen_tweet_ids`, `scroll_attempts`,
      `requests_made`, `consecutive_no_new_tweets_scrolls`, `last_height`, and the
      tracker the body writes. */
  datatype State = State(tweets: seq<Tweet>, seen: set<string>, passes: nat, requests: nat,
                         empty: nat, lastHeight: int, tracker: Tracker, stop: Stop)

  /** The loop invariant of the extractor: `seen_tweet_ids` is exactly the set of
      ids of the collected tweets, those ids are pairwise distinct, and every
      collected tweet has an id, non-blank text and no score yet. */
  predicate Inv(st: State) {
    && st.seen == IdSet(st.tweets)
    && KeysDistinct(st.tweets, IdOf)
    && forall i :: 0 <= i < |st.tweets| ==>
         st.tweets[i].id.Some? && !IsBlank(st.tweets[i].text) && st.tweets[i].score.None?
  }

  /** The state the loop starts in, after the page has loaded. */
  function Start(height: int, requests: nat, tracker: Tracker): (st: State)
    ensures Inv(st) && st.passes == 0 && st.stop == Going
  {
    State([], {}, 0, requests, 0, height, tracker, Going)
  }

  /** The `while` condition: no `break` yet, passes left, requests left. */
  predicate Continue(cfg: Config, st: State) {
    st.stop == Going && st.passes < cfg.maxPasses
    && (cfg.rateLimit.None? || st.requests < cfg.rateLimit.value)
  }

  /** The two exception handlers around the pass body. */
  function Abort(st: State, f: Fault): (r: State)
    ensures r.tweets == st.tweets && r.seen == st.seen && r.passes == st.passes && r.requests == st.requests
    ensures f == DriverFault ==> r.stop == DriverLost && PageScroll in r.tracker && r.tracker[PageScroll] == Failed
    ensures f == DriverFault ==> r.empty == st.empty
    ensures f == OtherFault ==> r.stop == st.stop && r.empty == st.empty + 1
    ensures f == OtherFault ==> TweetExtraction in r.tracker && r.tracker[TweetExtraction] == Partial
  {
    match f
    case DriverFault => st.(tracker := Set(st.tracker, PageScroll, Failed), stop := DriverLost)
    case OtherFault => st.(tracker := Set(st.tracker, TweetExtraction, Partial), empty := st.empty + 1)
  }

  /** The fault, if any, raised by the first-pass dump before extraction. */
  function DumpFault(cfg: Config, passNo: nat, obs: PassObs): Option<Fault> {
    if obs.Rendered? && obs.articles == [] && passNo == 1 then
      match obs.dump
      case DumpOk => None
      case SourceFault(f) => Some(f)
      case WriteFault => if cfg.dumpGuarded then None else Some(OtherFault)
    else None
  }

  /** The pass runs its article loop to the end. */
  predicate Extracts(cfg: Config, st: State, obs: PassObs) {
    obs.Rendered? && DumpFault(cfg, st.passes + 1, obs).None?
  }

  /** The fault that ends the pass early, if any. */
  function PassFault(cfg: Config, st: State, obs: PassObs): Option<Fault> {
    match obs
    case ScrollFault(f) => Some(f)
    case ListFault(f) => Some(f)
    case Rendered(_, _, _) => DumpFault(cfg, st.passes + 1, obs)
  }

  /** One pass of the loop body, starting from a state the loop condition admits. */
  function Pass(cfg: Config, st: State, obs: PassObs, h: string -> int): (r: State)
    requires st.stop == Going
    ensures r.passes == st.passes + 1 && r.requests == st.requests + 1
    ensures |st.tweets| <= |r.tweets| && r.tweets[..|st.tweets|] == st.tweets
    ensures Extracts(cfg, st, obs) ==>
              r.tweets == st.tweets + ExtractPass(obs.articles, st.seen, h)
              && r.seen == st.seen + IdSet(ExtractPass(obs.articles, st.seen, h))
    ensures !Extracts(cfg, st, obs) ==> r.tweets == st.tweets && r.seen == st.seen
    ensures PassFault(cfg, st, obs) == Some(DriverFault) ==> r.tweets == st.tweets && r.stop == DriverLost
    ensures PassFault(cfg, st, obs) == Some(OtherFault) ==>
              r.tweets == st.tweets && r.stop == Going && r.empty == st.empty + 1
    ensures Extracts(cfg, st, obs) && obs.height.Height? ==>
              r.empty == (if |r.tweets| > |st.tweets| then 0 else st.empty + 1)
              && (r.stop == NoNewTweets <==> r.empty >= cfg.threshold)
    ensures r.stop == EndOfPage ==>
              obs.Rendered? && obs.height == Height(st.lastHeight) && r.passes > 1 && r.empty > 1
              && r.tweets == st.tweets
    ensures r.stop == RateLimited ==> cfg.rateLimit.Some? && r.requests >= cfg.rateLimit.value
  {
    var st1 := st.(passes := st.passes + 1, requests := st.requests + 1);
    match obs
    case ScrollFault(f) => Abort(st1, f)
    case ListFault(f) => Abort(st1.(tracker := Set(st1.tracker, TweetExtraction, InProgress)), f)
    case Rendered(arts, _, height) =>
      var st2 := st1.(tracker := Set(st1.tracker, TweetExtraction, InProgress));
      var dumpFault := DumpFault(cfg, st1.passes, obs);
      if dumpFault.Some? then Abort(st2, dumpFault.value)
      else
        var found := ExtractPass(arts, st.seen, h);
        assert (st.tweets + found)[..|st.tweets|] == st.tweets;
        var st3 := st2.(tweets := st.tweets + found, seen := st.seen + IdSet(found),
                        tracker := Set(st2.tracker, TweetExtraction, Success),
                        empty := if |found| > 0 then 0 else st.empty + 1);
        Settle(cfg, st3, height)
  }

  /** The rest of a pass after its article loop, from the state `st` it left:
      the empty-pass check, the height script, then the end-of-page and
      rate-limit checks against the height `st.lastHeight` of the pass before. */
  function Settle(cfg: Config, st: State, height: HeightProbe): (r: State)
    requires st.stop == Going
    ensures r.tweets == st.tweets && r.seen == st.seen && r.passes == st.passes && r.requests == st.requests
    ensures r.tracker == st.tracker || r.tracker == Set(st.tracker, PageScroll, Failed)
            || r.tracker == Set(st.tracker, TweetExtraction, Partial)
    ensures st.empty >= cfg.threshold ==> r.stop == NoNewTweets && r.empty == st.empty
    ensures st.empty < cfg.threshold && height.HeightFault? && height.f == DriverFault ==>
              r.stop == DriverLost && r.empty == st.empty
    ensures st.empty < cfg.threshold && height.HeightFault? && height.f == OtherFault ==>
              r.stop == Going && r.empty == st.empty + 1
    ensures height.Height? ==> r.empty == st.empty && (r.stop == NoNewTweets <==> st.empty >= cfg.threshold)
    ensures r.stop == EndOfPage ==>
              height == Height(st.lastHeight) && r.passes > 1 && r.empty > 1
    ensures r.stop == RateLimited ==> cfg.rateLimit.Some? && r.requests >= cfg.rateLimit.value
  {
    if st.empty >= cfg.threshold then st.(stop := NoNewTweets)
    else
      match height
      case HeightFault(f) => Abort(st, f)
      case Height(nh) =>
        if nh == st.lastHeight && st.passes > 1 && st.empty > 1 then st.(stop := EndOfPage)
        else
          var st4 := st.(lastHeight := nh);
          if cfg.rateLimit.Some? && st4.requests >= cfg.rateLimit.value then st4.(stop := RateLimited)
          else st4
  }

  /** A raise from the height script comes after the article loop: the pass's
      tweets stay collected, a `WebDriverException` stops the loop, and any
      other raise counts one more empty pass. */
  lemma PassHeightFault(cfg: Config, st: State, obs: PassObs, h: string -> int)
    requires st.stop == Going
    requires Extracts(cfg, st, obs) && obs.height.HeightFault?
    ensures var r := Pass(cfg, st, obs, h);
            var found := ExtractPass(obs.articles, st.seen, h);
            var e := if |found| > 0 then 0 else st.empty + 1;
            r.tweets == st.tweets + found &&
            if e >= cfg.threshold then r.stop == NoNewTweets && r.empty == e
            else if obs.height.f == DriverFault then r.stop == DriverLost && r.empty == e
            else r.stop == Going && r.empty == e + 1
  {
  }

  lemma IdSetAppend(a: seq<Tweet>, b: seq<Tweet>)
    ensures IdSet(a + b) == IdSet(a) + IdSet(b)
  {
    assert forall t :: t in a + b <==> t in a || t in b;
  }

  /** Appending a pass's tweets to the collected list, and their ids to the seen
      set, keeps the extractor's invariant. */
  lemma AppendFoundInv(st: State, found: seq<Tweet>)
    requires Inv(st)
    requires forall i :: 0 <= i < |found| ==>
               found[i].id.Some? && IdOf(found[i]) !in st.seen && !IsBlank(found[i].text) && found[i].score.None?
    requires KeysDistinct(found, IdOf)
    ensures Inv(st.(tweets := st.tweets + found, seen := st.seen + IdSet(found)))
  {
    var ts := st.tweets + found;
    IdSetAppend(st.tweets, found);
    assert KeysDistinct(ts, IdOf) by {
      forall i, j | 0 <= i < j < |ts| ensures IdOf(ts[i]) != IdOf(ts[j]) {
        if j >= |st.tweets| {
          assert ts[j] == found[j - |st.tweets|];
          if i < |st.tweets| {
            assert ts[i] in st.tweets;
            assert IdOf(ts[i]) in st.seen;
          } else {
            assert ts[i] == found[i - |st.tweets|];
          }
        }
      }
    }
    assert forall i :: 0 <= i < |ts| ==> ts[i].id.Some? && !IsBlank(ts[i].text) && ts[i].score.None? by {
      forall i | 0 <= i < |ts| ensures ts[i].id.Some? && !IsBlank(ts[i].text) && ts[i].score.None? {
        if i >= |st.tweets| { assert ts[i] == found[i - |st.tweets|]; }
      }
    }
  }

  /** A pass keeps the extractor's invariant. */
  lemma PassInv(cfg: Config, st: State, obs: PassObs, h: string -> int)
    requires st.stop == Going && Inv(st)
    ensures Inv(Pass(cfg, st, obs, h))
  {
    var r := Pass(cfg, st, obs, h);
    if Extracts(cfg, st, obs) {
      AppendFoundInv(st, ExtractPass(obs.articles, st.seen, h));
      assert Inv(st.(tweets := r.tweets, seen := r.seen));
    } else {
      assert Inv(st.(tweets := r.tweets, seen := r.seen));
    }
  }

  /** The loop as a fold: passes run while the loop condition holds, pass `k`
      seeing observation `obs(k)`. It never exceeds the pass limit, spends one
      request per pass, keeps the extractor's invariant and only appends. */
  function Run(cfg: Config, st: State, obs: nat -> PassObs, h: string -> int): (r: State)
    requires Inv(st)
    decreases cfg.maxPasses - st.passes
    ensures Inv(r) && !Continue(cfg, r)
    ensures st.passes <= cfg.maxPasses ==> r.passes <= cfg.maxPasses
    ensures r.passes - st.passes == r.requests - st.requests
    ensures cfg.rateLimit.Some? && st.requests <= cfg.rateLimit.value ==> r.requests <= cfg.rateLimit.value
    ensures |st.tweets| <= |r.tweets| && r.tweets[..|st.tweets|] == st.tweets
    ensures r.stop == RateLimited ==>
              st.stop == RateLimited || (cfg.rateLimit.Some? && r.requests >= cfg.rateLimit.value)
  {
    if !Continue(cfg, st) then st
    else
      var next := Pass(cfg, st, obs(st.passes), h);
      PassInv(cfg, st, obs(st.passes), h);
      var r := Run(cfg, next, obs, h);
      assert r.tweets[..|st.tweets|] == r.tweets[..|next.tweets|][..|st.tweets|];
      r
  }

  /** A pass writes only the `page_scroll` and `tweet_extraction` entries. */
  lemma PassTrackerFrame(cfg: Config, st: State, obs: PassObs, h: string -> int, k: Step)
    requires st.stop == Going && k in st.tracker && k != PageScroll && k != TweetExtraction
    ensures k in Pass(cfg, st, obs, h).tracker && Pass(cfg, st, obs, h).tracker[k] == st.tracker[k]
  {
  }

  /** The loop writes only the `page_scroll` and `tweet_extraction` entries. */
  lemma {:induction false} RunTrackerFrame(cfg: Config, st: State, obs: nat -> PassObs, h: string -> int, k: Step)
    requires Inv(st) && k in st.tracker && k != PageScroll && k != TweetExtraction
    decreases cfg.maxPasses - st.passes
    ensures k in Run(cfg, st, obs, h).tracker && Run(cfg, st, obs, h).tracker[k] == st.tracker[k]
  {
    if Continue(cfg, st) {
      PassInv(cfg, st, obs(st.passes), h);
      PassTrackerFrame(cfg, st, obs(st.passes), h, k);
      RunTrackerFrame(cfg, Pass(cfg, st, obs(st.passes), h), obs, h, k);
    }
  }

  /** The `while` loop itself, computing the fold. */
  method ScrollLoop(cfg: Config, st0: State, obs: nat -> PassObs, h: string -> int) returns (st: State)
    requires Inv(st0)
    ensures st == Run(cfg, st0, obs, h)
    ensures Inv(st) && !Continue(cfg, st)
    ensures st0.passes <= cfg.maxPasses ==> st.passes <= cfg.maxPasses
  {
    st := st0;
    while Continue(cfg, st)
      invariant Inv(st)
      invariant Run(cfg, st, obs, h) == Run(cfg, st0, obs, h)
      decreases cfg.maxPasses - st.passes
    {
      PassInv(cfg, st, obs(st.passes), h);
      st := Pass(cfg, st, obs(st.passes), h);
    }
  }

  /** `v8.py` runs at most three passes and makes at most five requests. */
  lemma V8Bounds(tracker: Tracker, height: int, obs: nat -> PassObs, h: string -> int)
    ensures Run(V8Config, Start(height, 0, tracker), obs, h).passes <= 3
    ensures Run(V8Config, Start(height, 0, tracker), obs, h).requests <= 5
  {
  }

  /** Starting from no requests, three passes never reach the limit of five, so
      the rate-limit `break` of `v8.py` cannot fire. */
  lemma V8NeverRateLimited(tracker: Tracker, height: int, obs: nat -> PassObs, h: string -> int)
    ensures Run(V8Config, Start(height, 0, tracker), obs, h).stop != RateLimited
  {
    V8Bounds(tracker, height, obs, h);
  }

  /** A pass that finds nothing new, on a page whose height stays put. */
  predicate FlatPass(obs: PassObs, seen: set<string>, height: int, h: string -> int) {
    obs.Rendered? && obs.dump == DumpOk && obs.height == Height(height)
    && ExtractPass(obs.articles, seen, h) == []
  }

  /** With the height unchanged and no new tweets the loop stops after exactly two
      passes by the end-of-page rule, in both `v8.py` and
      `twitter_redirect_anz.py`. */
  lemma FlatPageStopsAfterTwo(cfg: Config, tracker: Tracker, height: int, obs: nat -> PassObs, h: string -> int)
    requires cfg == V8Config || cfg == AnzConfig
    requires FlatPass(obs(0), {}, height, h) && FlatPass(obs(1), {}, height, h)
    ensures Run(cfg, Start(height, 0, tracker), obs, h).passes == 2
    ensures Run(cfg, Start(height, 0, tracker), obs, h).stop == EndOfPage
    ensures Run(cfg, Start(height, 0, tracker), obs, h).tweets == []
  {
    var s0 := Start(height, 0, tracker);
    PassInv(cfg, s0, obs(0), h);
    var s1 := Pass(cfg, s0, obs(0), h);
    assert s1.empty == 1 && s1.stop == Going && s1.seen == {} && s1.tweets == [] && s1.passes == 1;
    assert Run(cfg, s0, obs, h) == Run(cfg, s1, obs, h);
    PassInv(cfg, s1, obs(1), h);
    var s2 := Pass(cfg, s1, obs(1), h);
    assert s2.stop == EndOfPage && s2.passes == 2 && s2.tweets == [];
    assert Run(cfg, s1, obs, h) == Run(cfg, s2, obs, h);
    assert Run(cfg, s2, obs, h) == s2;
  }

  /** Once the loop has ended, the scroll status the code records: `success` when
      a pass ran, else `skipped` — overwriting the `failed` a `WebDriverException`
      recorded. */
  function ScrollStatusAsWritten(st: State): (s: Status)
    ensures s != Failed
  {
    if st.passes > 0 then Success else Skipped
  }

  /** A `WebDriverException` in the first pass leaves the tracker saying the
      scroll failed, and the status written after the loop says it succeeded. */
  lemma DriverLossReportedAsSuccess(tracker: Tracker, height: int, obs: nat -> PassObs, h: string -> int)
    requires obs(0) == ScrollFault(DriverFault)
    ensures Run(V8Config, Start(height, 0, tracker), obs, h).stop == DriverLost
    ensures PageScroll in Run(V8Config, Start(height, 0, tracker), obs, h).tracker
    ensures Run(V8Config, Start(height, 0, tracker), obs, h).tracker[PageScroll] == Failed
    ensures ScrollStatusAsWritten(Run(V8Config, Start(height, 0, tracker), obs, h)) == Success
  {
    var s0 := Start(height, 0, tracker);
    var s1 := Pass(V8Config, s0, obs(0), h);
    PassInv(V8Config, s0, obs(0), h);
    assert s1.stop == DriverLost;
    assert Run(V8Config, s0, obs, h) == s1;
  }

  /** The scroll status as intended: `failed` when a `WebDriverException` ended the
      loop, otherwise `success` when a pass ran and `skipped` when none did. */
  function ScrollStatus(st: State): (s: Status)
    ensures s == Failed <==> st.stop == DriverLost
    ensures st.stop != DriverLost ==> s == ScrollStatusAsWritten(st)
  {
    if st.stop == DriverLost then Failed else if st.passes > 0 then Success else Skipped
  }

  // ---------------------------------------------------------------------------
  // twitter_trend_analysis.py

  /** The article query of one pass: the articles, or a raise. */
  datatype TaParse = TaArticles(articles: seq<TaArticle>) | TaParseFault

  /** One pass: the parse outcome and the height read afterwards, or a raise from
      the scroll script or the height script, neither of which is guarded. */
  datatype TaPassObs = TaPassObs(parse: TaParse, height: int) | TaScriptFault

  const TaMaxPasses: nat := 25
  const TaThreshold: nat := 3

  /** `tweets`, `scroll_attempts` (completed passes), `consecutive_empty_scrolls`,
      `last_height`, whether the loop has hit its `break`, and whether it ended
      in a raise instead. */
  datatype TaState = TaState(tweets: seq<Tweet>, passes: nat, empty: nat, lastHeight: int, stopped: bool, raised: bool)

  /** Tweets are unique and carry text, and a raise has ended the loop. */
  predicate TaInv(st: TaState) { TaIdsUnique(st.tweets) && AllTexted(st.tweets) && (st.raised ==> st.stopped) }

  /** One pass. An empty article list or no new tweet counts as empty, new tweets
      reset the count, and a parse raise leaves it alone. The loop breaks when the
      height did not change — there is no first-pass exemption — or the count
      reached three; otherwise the pass is counted. A script raise leaves the
      loop and the function. */
  function TaPass(st: TaState, obs: TaPassObs): (r: TaState)
    requires TaInv(st) && !st.stopped
    ensures TaInv(r)
    ensures |st.tweets| <= |r.tweets| && r.tweets[..|st.tweets|] == st.tweets
    ensures r.raised <==> obs.TaScriptFault?
    ensures obs.TaScriptFault? ==> r.stopped && r.passes == st.passes
    ensures obs.TaPassObs? && obs.parse.TaParseFault? ==> r.tweets == st.tweets && r.empty == st.empty
    ensures obs.TaPassObs? && obs.parse.TaArticles? ==> r.empty == (if |r.tweets| > |st.tweets| then 0 else st.empty + 1)
    ensures obs.TaPassObs? ==> (r.stopped <==> obs.height == st.lastHeight || r.empty >= TaThreshold)
    ensures r.stopped ==> r.passes == st.passes
    ensures !r.stopped ==> obs.TaPassObs? && r.passes == st.passes + 1 && r.lastHeight == obs.height
  {
    match obs
    case TaScriptFault => st.(stopped := true, raised := true)
    case TaPassObs(parse, height) =>
      var st1 :=
        match parse
        case TaParseFault => st
        case TaArticles(arts) =>
          if arts == [] then st.(empty := st.empty + 1)
          else
            var ts := TaExtractPass(arts, st.tweets);
            st.(tweets := ts, empty := if |ts| == |st.tweets| then st.empty + 1 else 0);
      if height == st.lastHeight || st1.empty >= TaThreshold then st1.(stopped := true)
      else st1.(lastHeight := height, passes := st.passes + 1)
  }

  /** The loop as a fold; at most 25 passes are counted. A loop that was running
      ends in a raise exactly when it stopped at a pass whose scripts raised. */
  function TaRun(st: TaState, obs: nat -> TaPassObs): (r: TaState)
    requires TaInv(st)
    decreases TaMaxPasses - st.passes, if st.stopped then 0 else 1
    ensures TaInv(r)
    ensures r.stopped || r.passes >= TaMaxPasses
    ensures st.passes <= TaMaxPasses ==> r.passes <= TaMaxPasses
    ensures |st.tweets| <= |r.tweets| && r.tweets[..|st.tweets|] == st.tweets
    ensures !st.stopped ==> (r.raised <==> r.stopped && obs(r.passes).TaScriptFault?)
  {
    if st.stopped || st.passes >= TaMaxPasses then st
    else
      var next := TaPass(st, obs(st.passes));
      var r := TaRun(next, obs);
      assert r.tweets[..|st.tweets|] == r.tweets[..|next.tweets|][..|st.tweets|];
      r
  }

  /** The `while` loop of `twitter_trend_analysis.py`, computing the fold. */
  method TaScrollLoop(st0: TaState, obs: nat -> TaPassObs) returns (st: TaState)
    requires TaInv(st0) && st0.passes <= TaMaxPasses
    ensures st == TaRun(st0, obs)
    ensures st.passes <= TaMaxPasses
  {
    st := st0;
    while !st.stopped && st.passes < TaMaxPasses
      invariant TaInv(st) && st.passes <= TaMaxPasses
      invariant TaRun(st, obs) == TaRun(st0, obs)
      decreases TaMaxPasses - st.passes, if st.stopped then 0 else 1
    {
      st := TaPass(st, obs(st.passes));
    }
  }

  /** A first pass whose height equals the height read before the loop ends it at
      once, whatever it found. */
  lemma TaStopsOnFlatFirstPass(height: int, obs: nat -> TaPassObs)
    requires obs(0).TaPassObs? && obs(0).height == height
    ensures TaRun(TaState([], 0, 0, height, false, false), obs).stopped
    ensures !TaRun(TaState([], 0, 0, height, false, false), obs).raised
    ensures TaRun(TaState([], 0, 0, height, false, false), obs).passes == 0
  {
    var s0 := TaState([], 0, 0, height, false, false);
    assert TaPass(s0, obs(0)).stopped;
  }

  /** A running loop whose next pass raises ends there, in a raise. */
  lemma TaRaisesAtPass(st: TaState, obs: nat -> TaPassObs)
    requires TaInv(st) && !st.stopped && st.passes < TaMaxPasses
    requires obs(st.passes).TaScriptFault?
    ensures TaRun(st, obs).raised && TaRun(st, obs).passes == st.passes
  {
    assert TaPass(st, obs(st.passes)).stopped;
  }
}
