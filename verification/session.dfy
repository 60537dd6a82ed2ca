/** One call of `scrape_twitter_trends`: the retry loop of `v8.py`, whose attempts
    acquire a driver, apply the auth cookie, load the search page, scroll and
    deduplicate; and the single attempt of `twitter_redirect_anz.py`. The browser
    is an oracle: each attempt is described by what the driver reported. */
module Session {
  import opened Text
  import opened Dedup
  import opened Tweets
  import opened Tracker
  import opened Scroll

  // ---------------------------------------------------------------------------
  // The page after `driver.get(url)`

  /** One CAPTCHA marker query of `detect_captcha`: found, not found, or raised. */
  datatype Marker = Found | NotFound | MarkerFault

  /** What the driver reports about the loaded page: the four CAPTCHA marker
      queries in order, and `current_url`, `title` and `page_source` (`None`, or
      `false` for the source, when reading it raises). */
  datatype Page = Page(markers: seq<Marker>, url: Option<string>, title: Option<string>, source: bool)

  /** How the `get` plus the wait for key elements ended. */
  datatype Load = LoadTimeout(page: Page) | LoadFault(page: Page) | Loaded(page: Page)

  const CaptchaUrl: string := "x.com/i/flow/captcha"

  predicate FirstFound(ms: seq<Marker>, i: int) {
    0 <= i < |ms| && ms[i] == Found && forall j :: 0 <= j < i ==> ms[j] == NotFound
  }

  predicate AllClear(ms: seq<Marker>) { forall j :: 0 <= j < |ms| ==> ms[j] == NotFound }

  /** `detect_captcha`: the marker queries in order, a hit answering yes and a
      raise answering no, then the URL check (a raise there answers no too). */
  function CaptchaIn(ms: seq<Marker>, url: Option<string>): bool {
    if ms == [] then url.Some? && Contains(Lower(url.value), CaptchaUrl)
    else match ms[0]
      case Found => true
      case MarkerFault => false
      case NotFound => CaptchaIn(ms[1..], url)
  }

  /** A CAPTCHA is reported exactly when some marker is found with every earlier
      query answering "not found", or when no query raised or hit and the URL is
      the CAPTCHA flow. */
  lemma {:induction false} CaptchaInMeaning(ms: seq<Marker>, url: Option<string>)
    ensures CaptchaIn(ms, url) <==>
              (exists i :: FirstFound(ms, i))
              || (AllClear(ms) && url.Some? && Contains(Lower(url.value), CaptchaUrl))
  {
    if ms != [] {
      var tl := ms[1..];
      CaptchaInMeaning(tl, url);
      if ms[0] == NotFound {
        assert AllClear(ms) <==> AllClear(tl) by {
          if AllClear(tl) {
            forall j | 0 <= j < |ms| ensures ms[j] == NotFound {
              if j > 0 { assert ms[j] == tl[j - 1]; }
            }
          }
        }
        if exists i :: FirstFound(tl, i) {
          var i :| FirstFound(tl, i);
          assert FirstFound(ms, i + 1) by {
            forall j | 0 <= j < i + 1 ensures ms[j] == NotFound {
              if j > 0 { assert ms[j] == tl[j - 1]; }
            }
          }
        }
        if exists i :: FirstFound(ms, i) {
          var i :| FirstFound(ms, i);
          assert i > 0;
          assert FirstFound(tl, i - 1) by {
            forall j | 0 <= j < i - 1 ensures tl[j] == NotFound {
              assert tl[j] == ms[j + 1];
            }
          }
        }
      } else if ms[0] == Found {
        assert FirstFound(ms, 0);
      } else {
        assert !AllClear(ms);
        assert forall i :: !FirstFound(ms, i) by {
          forall i | 0 <= i < |ms| ensures !FirstFound(ms, i) {
            if i > 0 { assert ms[0] != NotFound; }
          }
        }
      }
    }
  }

  /** The redirect check of `v8.py`: not on a search or explore page of x.com or
      twitter.com, or on a login flow by URL or by title. */
  predicate IsRedirectV8(url: string, title: string) {
    var u := Lower(url);
    var t := Lower(title);
    !(Contains(u, "x.com/search") || Contains(u, "x.com/explore")
      || Contains(u, "twitter.com/search") || Contains(u, "twitter.com/explore"))
    || Contains(u, "x.com/i/flow/login") || Contains(u, "twitter.com/i/flow/login")
    || Contains(t, "login on x") || Contains(t, "log in to x")
  }

  /** The redirect check of `twitter_redirect_anz.py`, which knows only twitter.com. */
  predicate IsRedirectAnz(url: string, title: string) {
    var u := Lower(url);
    var t := Lower(title);
    !(Contains(u, "twitter.com/search") || Contains(u, "twitter.com/explore"))
    || Contains(u, "twitter.com/i/flow/login")
    || Contains(t, "login on x") || Contains(t, "log in to x")
  }

  // ---------------------------------------------------------------------------
  // One attempt of v8.py

  /** What one attempt of `v8.py` observed: all four driver strategies raised; a
      driver was acquired but a navigator patch raised; the auth cookie could not
      be applied; or the search page was requested, with the load outcome, the
      start height and the scroll passes. */
  datatype V8Attempt =
    | DriverFail
    | PatchFault
    | CookieFail
    | Browse(load: Load, height: HeightProbe, passes: nat -> PassObs)

  /** How an attempt body left: `continue`, the critical handler, or `return`. */
  datatype Exit = Again | Crash | Return(tweets: seq<Tweet>)

  /** The exit, the tracker afterwards, whether `driver` was assigned a new handle,
      and `requests_made`. */
  datatype AttemptEnd = AttemptEnd(exit: Exit, tracker: Tracker, acquired: bool, requests: nat)

  /** The search page loaded, no CAPTCHA, and it is not a redirect. */
  predicate OnSearchPage(l: Load) {
    l.Loaded? && !CaptchaIn(l.page.markers, l.page.url)
    && l.page.url.Some? && l.page.title.Some? && !IsRedirectV8(l.page.url.value, l.page.title.value)
  }

  /** A CAPTCHA was seen and its page source saved, so the attempt returns. */
  predicate CaptchaStop(l: Load) {
    l.Loaded? && CaptchaIn(l.page.markers, l.page.url) && l.page.source
  }

  /** The attempts that leave by `return`. */
  predicate Returns(a: V8Attempt) {
    a.Browse? && (CaptchaStop(a.load) || (OnSearchPage(a.load) && a.height.Height?))
  }

  /** The attempts that reach the critical handler: a patch raised, the start
      height could not be read, or a page-load handler raised while logging the
      URL, the title or the page source. */
  predicate Crashes(a: V8Attempt) {
    || a.PatchFault?
    || (a.Browse? && OnSearchPage(a.load) && a.height.HeightFault?)
    || (a.Browse? && !OnSearchPage(a.load) && !CaptchaStop(a.load) && a.load.page.url.None?)
    || (a.Browse? && a.load.LoadTimeout? && (a.load.page.title.None? || !a.load.page.source))
  }

  /** The page-load stage, from a tracker with `page_load` in progress: where it
      leaves, or `None` when the scroll stage follows. */
  function V8Load(l: Load, t: Tracker): (r: Option<(Exit, Tracker)>)
    ensures r.None? <==> OnSearchPage(l)
    ensures r.Some? ==> (r.value.0.Return? <==> CaptchaStop(l))
    ensures r.Some? && r.value.0.Return? ==> r.value.0.tweets == []
    ensures r.Some? ==> (r.value.0.Crash? <==>
              !CaptchaStop(l) && (l.page.url.None? || (l.LoadTimeout? && (l.page.title.None? || !l.page.source))))
  {
    var p := l.page;
    match l
    case LoadTimeout(_) =>
      var t1 := Set(t, PageLoad, Failed);
      if p.url.Some? && p.title.Some? && p.source then Some((Again, t1)) else Some((Crash, Sweep(t1)))
    case LoadFault(_) =>
      var t1 := Set(t, PageLoad, Failed);
      if p.url.Some? then Some((Again, t1)) else Some((Crash, Sweep(t1)))
    case Loaded(_) =>
      var t1 := Set(t, CaptchaDetection, InProgress);
      if CaptchaIn(p.markers, p.url) then
        var t2 := Set(t1, CaptchaDetection, Failed);
        if p.source then Some((Return([]), t2))
        else
          // `page_source` raised inside the guarded block: the generic handler
          var t3 := Set(t2, PageLoad, Failed);
          if p.url.Some? then Some((Again, t3)) else Some((Crash, Sweep(t3)))
      else
        var t2 := Set(t1, CaptchaDetection, Success);
        if p.url.None? then Some((Crash, Sweep(Set(t2, PageLoad, Failed))))
        else if p.title.None? || IsRedirectV8(p.url.value, p.title.value) then
          Some((Again, Set(t2, PageLoad, Failed)))
        else None
  }

  /** The scroll stage and the final text deduplication, from the start height:
      the returned list, the tracker and `requests_made` afterwards. The tracker
      gets the intended `page_scroll` status, `Scroll.ScrollStatus`, not the one
      line 641 of `v8.py` writes (`Scroll.ScrollStatusAsWritten`). */
  function ScrapeStage(cfg: Config, height: int, passes: nat -> PassObs, t: Tracker, requests: nat,
                       h: string -> int): (r: (seq<Tweet>, Tracker, nat))
    ensures KeysDistinct(r.0, NormText)
    ensures forall i :: 0 <= i < |r.0| ==> NormText(r.0[i]) != []
  {
    var st := Run(cfg, Start(height, requests, Set(t, PageScroll, InProgress)), passes, h);
    var t1 := Set(st.tracker, PageScroll, ScrollStatus(st));
    if st.tweets == [] then ([], Set(t1, Deduplication, Skipped), st.requests)
    else (FinalDedup(st.tweets), Set(t1, Deduplication, Success), st.requests)
  }

  /** After the scroll stage the tracker says `page_scroll` failed exactly when a
      `WebDriverException` ended the loop — the intended status, which the code
      overwrites — and deduplication is skipped exactly when nothing was
      collected. */
  lemma ScrapeStageTracker(cfg: Config, height: int, passes: nat -> PassObs, t: Tracker, requests: nat,
                           h: string -> int)
    ensures PageScroll in ScrapeStage(cfg, height, passes, t, requests, h).1
    ensures ScrapeStage(cfg, height, passes, t, requests, h).1[PageScroll] == Failed <==>
              Run(cfg, Start(height, requests, Set(t, PageScroll, InProgress)), passes, h).stop == DriverLost
    ensures Deduplication in ScrapeStage(cfg, height, passes, t, requests, h).1
    ensures ScrapeStage(cfg, height, passes, t, requests, h).1[Deduplication] == Skipped <==>
              Run(cfg, Start(height, requests, Set(t, PageScroll, InProgress)), passes, h).tweets == []
  {
  }

  /** The scroll stage leaves `page_load` as it found it. */
  lemma ScrapeStageFrame(cfg: Config, height: int, passes: nat -> PassObs, t: Tracker, requests: nat,
                         h: string -> int)
    requires PageLoad in t
    ensures PageLoad in ScrapeStage(cfg, height, passes, t, requests, h).1
    ensures ScrapeStage(cfg, height, passes, t, requests, h).1[PageLoad] == t[PageLoad]
  {
    var st := Run(cfg, Start(height, requests, Set(t, PageScroll, InProgress)), passes, h);
    RunTrackerFrame(cfg, Start(height, requests, Set(t, PageScroll, InProgress)), passes, h, PageLoad);
  }

  /** What the final deduplication leaves: normalised texts non-empty and
      pairwise distinct. */
  predicate Deduplicated(ts: seq<Tweet>) {
    KeysDistinct(ts, NormText) && forall i :: 0 <= i < |ts| ==> NormText(ts[i]) != []
  }

  /** One attempt body of `v8.py`, with its `finally` left to the retry loop. */
  function V8AttemptBody(a: V8Attempt, tracker: Tracker, requests: nat, h: string -> int): (r: AttemptEnd)
    ensures r.acquired <==> !a.DriverFail?
    ensures r.exit.Return? <==> Returns(a)
    ensures r.exit.Crash? <==> Crashes(a)
    ensures a.Browse? && CaptchaStop(a.load) ==> r.exit == Return([])
    ensures !r.exit.Return? ==> r.requests == requests
    ensures r.exit.Return? ==> Deduplicated(r.exit.tweets)
  {
    var t0 := Set(tracker, DriverSetup, InProgress);
    match a
    case DriverFail => AttemptEnd(Again, Set(t0, DriverSetup, Failed), false, requests)
    case PatchFault => AttemptEnd(Crash, Sweep(t0), true, requests)
    case CookieFail => AttemptEnd(Again, Set(Set(t0, DriverSetup, Success), PageLoad, Failed), true, requests)
    case Browse(load, height, passes) =>
      BrowseBody(load, height, passes, Set(Set(t0, DriverSetup, Success), PageLoad, InProgress), requests, h)
  }

  /** The part of an attempt after the cookie is applied: load the page, then,
      on the search page, read the start height and scroll. */
  function BrowseBody(load: Load, height: HeightProbe, passes: nat -> PassObs, t1: Tracker, requests: nat,
                      h: string -> int): (r: AttemptEnd)
    ensures r.acquired
    ensures r.exit.Return? <==> CaptchaStop(load) || (OnSearchPage(load) && height.Height?)
    ensures r.exit.Crash? <==>
              (OnSearchPage(load) && height.HeightFault?)
              || (!OnSearchPage(load) && !CaptchaStop(load) && load.page.url.None?)
              || (load.LoadTimeout? && (load.page.title.None? || !load.page.source))
    ensures CaptchaStop(load) ==> r.exit == Return([])
    ensures !r.exit.Return? ==> r.requests == requests
    ensures r.exit.Return? ==> Deduplicated(r.exit.tweets)
  {
    match V8Load(load, t1)
    case Some(e) => AttemptEnd(e.0, e.1, true, requests)
    case None =>
      var t2 := Set(Set(t1, CaptchaDetection, Success), PageLoad, Success);
      match height
      case HeightFault(_) => AttemptEnd(Crash, Sweep(t2), true, requests)
      case Height(hgt) =>
        var (ts, t3, rq) := ScrapeStage(V8Config, hgt, passes, t2, requests, h);
        AttemptEnd(Return(ts), t3, true, rq)
  }

  // ---------------------------------------------------------------------------
  // The retry loop of v8.py

  /** The loop variables of `scrape_twitter_trends`: `attempt`, the `driver`
      handle (the number of the attempt that acquired it), the handles `quit`
      was called on, the sleeps taken, the tracker, `requests_made`, and the
      returned list once there is one. */
  datatype Session = Session(attempt: nat, driver: Option<nat>, quits: seq<nat>, sleeps: nat,
                             tracker: Tracker, requests: nat, result: Option<seq<Tweet>>)

  /** The `finally` of an attempt: `driver` holds the new handle if the attempt
      acquired one and the previous attempt's handle otherwise, and `quit` is
      called on whatever it holds. */
  function Finally(s: Session, e: AttemptEnd): (r: Session)
    ensures r.attempt == s.attempt && r.sleeps == s.sleeps && r.requests == s.requests && r.result == s.result
    ensures e.acquired ==> r.driver == Some(s.attempt) && r.quits == s.quits + [s.attempt]
    ensures !e.acquired ==> r.driver == s.driver && r.quits == s.quits + (if s.driver.Some? then [s.driver.value] else [])
  {
    var drv := if e.acquired then Some(s.attempt) else s.driver;
    s.(driver := drv, quits := if drv.Some? then s.quits + [drv.value] else s.quits, tracker := e.tracker)
  }

  /** `attempt += 1`, then the delay when the critical handler ran and attempts remain. */
  function NextAttempt(maxRetries: nat, s: Session, crashed: bool): (r: Session)
    ensures r.attempt == s.attempt + 1 && r.quits == s.quits && r.requests == s.requests && r.result == s.result
    ensures r.sleeps == s.sleeps + (if crashed && s.attempt < maxRetries then 1 else 0)
  {
    s.(attempt := s.attempt + 1, sleeps := if crashed && s.attempt + 1 <= maxRetries then s.sleeps + 1 else s.sleeps)
  }

  /** An attempt body as the retry loop sees it: from the attempt's observation,
      the tracker and `requests_made` to how the attempt ended. */
  type AttemptFn = (V8Attempt, Tracker, nat) -> AttemptEnd

  /** What the loop relies on about how an attempt ended. */
  predicate EndMeets(a: V8Attempt, requests: nat, e: AttemptEnd) {
    && (e.acquired <==> !a.DriverFail?)
    && (e.exit.Return? <==> Returns(a))
    && (e.exit.Crash? <==> Crashes(a))
    && (a.Browse? && CaptchaStop(a.load) ==> e.exit == Return([]))
    && (!e.exit.Return? ==> e.requests == requests)
    && (e.exit.Return? ==> Deduplicated(e.exit.tweets))
  }

  /** An attempt function that ends every attempt the way `v8.py`'s body does. */
  ghost predicate IsV8Step(step: AttemptFn) {
    forall a, t, rq :: EndMeets(a, rq, step(a, t, rq))
  }

  /** `v8.py`'s attempt body with the text hash fixed. */
  function V8Step(h: string -> int): (step: AttemptFn)
    ensures IsV8Step(step)
  {
    var step := (a: V8Attempt, t: Tracker, rq: nat) => V8AttemptBody(a, t, rq, h);
    assert forall a, t, rq :: EndMeets(a, rq, step(a, t, rq)) by {
      forall a, t, rq ensures EndMeets(a, rq, step(a, t, rq)) {
        assert step(a, t, rq) == V8AttemptBody(a, t, rq, h);
      }
    }
    step
  }

  /** The `while attempt <= max_retries` loop as a fold over the attempts, attempt
      `k` observing `obs(k)` and running `step`; running out of attempts returns `[]`. */
  function Retry(maxRetries: nat, s: Session, obs: nat -> V8Attempt, step: AttemptFn): (r: Session)
    requires s.result.None? && 1 <= s.attempt <= maxRetries + 1
    decreases maxRetries + 1 - s.attempt
    ensures r.result.Some?
    ensures s.attempt <= r.attempt <= maxRetries + 1
    ensures |s.quits| <= |r.quits| && r.quits[..|s.quits|] == s.quits
  {
    if s.attempt > maxRetries then s.(result := Some([]))
    else
      var e := step(obs(s.attempt), s.tracker, s.requests);
      var s1 := Finally(s, e);
      if e.exit.Return? then s1.(requests := e.requests, result := Some(e.exit.tweets))
      else
        var r := Retry(maxRetries, NextAttempt(maxRetries, s1, e.exit.Crash?), obs, step);
        assert r.quits[..|s.quits|] == r.quits[..|s1.quits|][..|s.quits|];
        r
  }

  /** The call ends at the first attempt that returns: every earlier attempt
      consumed itself, and when none returns the call gives `[]` after attempt
      `max_retries` without touching `requests_made`. */
  lemma {:induction false} RetryStopsAtFirstReturn(maxRetries: nat, s: Session, obs: nat -> V8Attempt, step: AttemptFn)
    requires IsV8Step(step)
    requires s.result.None? && 1 <= s.attempt <= maxRetries + 1
    decreases maxRetries + 1 - s.attempt
    ensures forall k :: s.attempt <= k < Retry(maxRetries, s, obs, step).attempt ==> !Returns(obs(k))
    ensures Retry(maxRetries, s, obs, step).attempt <= maxRetries ==> Returns(obs(Retry(maxRetries, s, obs, step).attempt))
    ensures Retry(maxRetries, s, obs, step).attempt == maxRetries + 1 ==>
              Retry(maxRetries, s, obs, step).result == Some([]) && Retry(maxRetries, s, obs, step).requests == s.requests
  {
    if s.attempt <= maxRetries {
      var e := step(obs(s.attempt), s.tracker, s.requests);
      var s1 := Finally(s, e);
      if !e.exit.Return? {
        RetryStopsAtFirstReturn(maxRetries, NextAttempt(maxRetries, s1, e.exit.Crash?), obs, step);
      }
    }
  }

  /** The attempts in `[lo, hi)` that reach the critical handler. */
  function CrashCount(obs: nat -> V8Attempt, lo: nat, hi: nat): nat
    decreases hi - lo
  {
    if lo >= hi then 0 else (if Crashes(obs(lo)) then 1 else 0) + CrashCount(obs, lo + 1, hi)
  }

  function Min(a: nat, b: nat): nat { if a < b then a else b }

  /** The retry delay follows only the critical handler: every other failure
      leaves by `continue` and the success paths by `return`. One sleep per
      crashed attempt that still has a successor. */
  lemma {:induction false} RetrySleeps(maxRetries: nat, s: Session, obs: nat -> V8Attempt, step: AttemptFn)
    requires IsV8Step(step)
    requires s.result.None? && 1 <= s.attempt <= maxRetries + 1
    decreases maxRetries + 1 - s.attempt
    ensures Retry(maxRetries, s, obs, step).sleeps ==
              s.sleeps + CrashCount(obs, s.attempt, Min(Retry(maxRetries, s, obs, step).attempt, maxRetries))
  {
    if s.attempt <= maxRetries {
      var e := step(obs(s.attempt), s.tracker, s.requests);
      var s1 := Finally(s, e);
      if !e.exit.Return? {
        var s2 := NextAttempt(maxRetries, s1, e.exit.Crash?);
        RetrySleeps(maxRetries, s2, obs, step);
        CrashCountStep(obs, s.attempt, Retry(maxRetries, s2, obs, step).attempt, maxRetries);
      }
    }
  }

  /** Peeling the first attempt off the crash count up to where the loop ended. */
  lemma CrashCountStep(obs: nat -> V8Attempt, a: nat, end: nat, maxRetries: nat)
    requires a <= maxRetries && a + 1 <= end
    ensures CrashCount(obs, a, Min(end, maxRetries)) ==
              (if Crashes(obs(a)) && a < maxRetries then 1 else 0) + CrashCount(obs, a + 1, Min(end, maxRetries))
  {
  }

  /** The `finally` runs on every exit: each attempt that acquired a handle has
      it quit. */
  lemma {:induction false} RetryQuits(maxRetries: nat, s: Session, obs: nat -> V8Attempt, step: AttemptFn, k: nat)
    requires IsV8Step(step)
    requires s.result.None? && 1 <= s.attempt <= maxRetries + 1
    requires s.attempt <= k <= Retry(maxRetries, s, obs, step).attempt && k <= maxRetries
    requires !obs(k).DriverFail?
    decreases maxRetries + 1 - s.attempt
    ensures k in Retry(maxRetries, s, obs, step).quits
  {
    var e := step(obs(s.attempt), s.tracker, s.requests);
    var s1 := Finally(s, e);
    if k == s.attempt {
      assert k in s1.quits;
      if !e.exit.Return? {
        var r := Retry(maxRetries, NextAttempt(maxRetries, s1, e.exit.Crash?), obs, step);
        assert s1.quits[|s1.quits| - 1] == k;
        assert r.quits[..|s1.quits|] == s1.quits;
        assert r.quits[|s1.quits| - 1] == k;
      }
    } else {
      RetryQuits(maxRetries, NextAttempt(maxRetries, s1, e.exit.Crash?), obs, step, k);
    }
  }

  /** The session a call starts with: attempt 1, no driver, nothing quit. */
  function Initial(tracker: Tracker): (s: Session)
    ensures s.result.None? && s.attempt == 1 && s.driver.None? && s.quits == [] && s.sleeps == 0
  {
    Session(1, None, [], 0, tracker, 0, None)
  }

  /** The retry loop as a `while` loop, computing the fold. */
  method RetryLoop(maxRetries: nat, s0: Session, obs: nat -> V8Attempt, step: AttemptFn) returns (s: Session)
    requires s0.result.None? && 1 <= s0.attempt <= maxRetries + 1
    ensures s == Retry(maxRetries, s0, obs, step)
    ensures s.result.Some? && s.attempt <= maxRetries + 1
  {
    s := s0;
    while s.result.None? && s.attempt <= maxRetries
      invariant 1 <= s.attempt <= maxRetries + 1
      invariant s.result.None? ==> Retry(maxRetries, s, obs, step) == Retry(maxRetries, s0, obs, step)
      invariant s.result.Some? ==> s == Retry(maxRetries, s0, obs, step)
      decreases maxRetries + 1 - s.attempt, if s.result.None? then 1 else 0
    {
      var e := step(obs(s.attempt), s.tracker, s.requests);
      s := Finally(s, e);
      if e.exit.Return? {
        s := s.(requests := e.requests, result := Some(e.exit.tweets));
      } else {
        s := NextAttempt(maxRetries, s, e.exit.Crash?);
      }
    }
    if s.result.None? {
      s := s.(result := Some([]));
    }
  }

  /** Whatever the loop returns is the output of one attempt's final
      deduplication: normalised texts non-empty and pairwise distinct. */
  lemma {:induction false} RetryResult(maxRetries: nat, s: Session, obs: nat -> V8Attempt, step: AttemptFn)
    requires IsV8Step(step)
    requires s.result.None? && 1 <= s.attempt <= maxRetries + 1
    decreases maxRetries + 1 - s.attempt
    ensures Deduplicated(Retry(maxRetries, s, obs, step).result.value)
  {
    if s.attempt <= maxRetries {
      var e := step(obs(s.attempt), s.tracker, s.requests);
      var s1 := Finally(s, e);
      if !e.exit.Return? {
        RetryResult(maxRetries, NextAttempt(maxRetries, s1, e.exit.Crash?), obs, step);
      }
    }
  }

  /** `scrape_twitter_trends` of `v8.py` with `max_retries` attempts. */
  function ScrapeV8(maxRetries: nat, tracker: Tracker, obs: nat -> V8Attempt, h: string -> int): (r: seq<Tweet>)
    ensures KeysDistinct(r, NormText)
    ensures forall i :: 0 <= i < |r| ==> NormText(r[i]) != []
  {
    RetryResult(maxRetries, Initial(tracker), obs, V8Step(h));
    Retry(maxRetries, Initial(tracker), obs, V8Step(h)).result.value
  }

  /** A CAPTCHA returns `[]` at once, whatever attempts remain. */
  lemma CaptchaEndsTheCall(maxRetries: nat, s: Session, obs: nat -> V8Attempt, step: AttemptFn)
    requires IsV8Step(step)
    requires s.result.None? && 1 <= s.attempt <= maxRetries
    requires obs(s.attempt).Browse? && CaptchaStop(obs(s.attempt).load)
    ensures Retry(maxRetries, s, obs, step).attempt == s.attempt
    ensures Retry(maxRetries, s, obs, step).result == Some([])
  {
    var e := step(obs(s.attempt), s.tracker, s.requests);
    assert e.exit == Return([]);
  }

  /** When no attempt returns, every attempt up to `max_retries` runs and the call
      returns `[]`. */
  lemma ExhaustionReturnsEmpty(maxRetries: nat, s: Session, obs: nat -> V8Attempt, step: AttemptFn)
    requires IsV8Step(step)
    requires s.result.None? && 1 <= s.attempt <= maxRetries + 1
    requires forall k :: s.attempt <= k <= maxRetries ==> !Returns(obs(k))
    ensures Retry(maxRetries, s, obs, step).attempt == maxRetries + 1
    ensures Retry(maxRetries, s, obs, step).result == Some([])
  {
    RetryStopsAtFirstReturn(maxRetries, s, obs, step);
  }

  lemma {:induction false} CrashCountZero(obs: nat -> V8Attempt, lo: nat, hi: nat)
    requires forall k :: lo <= k < hi ==> !Crashes(obs(k))
    decreases hi - lo
    ensures CrashCount(obs, lo, hi) == 0
  {
    if lo < hi {
      CrashCountZero(obs, lo + 1, hi);
    }
  }

  /** Redirects, timeouts, cookie and driver failures consume an attempt without
      the retry delay: a call none of whose attempts reaches the critical handler
      never sleeps. */
  lemma NoSleepWithoutCrash(maxRetries: nat, tracker: Tracker, obs: nat -> V8Attempt, step: AttemptFn)
    requires IsV8Step(step)
    requires forall k :: 1 <= k <= maxRetries ==> !Crashes(obs(k))
    ensures Retry(maxRetries, Initial(tracker), obs, step).sleeps == 0
  {
    var r := Retry(maxRetries, Initial(tracker), obs, step);
    RetrySleeps(maxRetries, Initial(tracker), obs, step);
    CrashCountZero(obs, 1, Min(r.attempt, maxRetries));
  }

  /** `driver` is not reset between attempts: after an attempt that acquired a
      handle, a following attempt whose acquisition fails quits that same handle
      a second time. */
  lemma StaleHandleQuitTwice(maxRetries: nat, tracker: Tracker, obs: nat -> V8Attempt, step: AttemptFn)
    requires IsV8Step(step)
    requires maxRetries >= 2
    requires obs(1) == CookieFail && obs(2) == DriverFail
    ensures |Retry(maxRetries, Initial(tracker), obs, step).quits| >= 2
    ensures Retry(maxRetries, Initial(tracker), obs, step).quits[..2] == [1, 1]
  {
    var s0 := Initial(tracker);
    var e1 := step(obs(1), s0.tracker, 0);
    assert e1.acquired && e1.exit.Again?;
    var s1 := NextAttempt(maxRetries, Finally(s0, e1), false);
    assert s1.quits == [1] && s1.driver == Some(1) && s1.attempt == 2;
    assert Retry(maxRetries, s0, obs, step) == Retry(maxRetries, s1, obs, step);
    var e2 := step(obs(2), s1.tracker, s1.requests);
    assert !e2.acquired && e2.exit.Again?;
    var s2 := NextAttempt(maxRetries, Finally(s1, e2), false);
    assert s2.quits == [1, 1];
    assert Retry(maxRetries, s1, obs, step) == Retry(maxRetries, s2, obs, step);
  }

  /** `requests_made` lives outside the retry loop, but only the returning
      attempt spends requests, so an exhausted call never spent any. */
  lemma ExhaustedSpendsNoRequests(maxRetries: nat, tracker: Tracker, obs: nat -> V8Attempt, step: AttemptFn)
    requires IsV8Step(step)
    ensures Retry(maxRetries, Initial(tracker), obs, step).attempt == maxRetries + 1 ==>
              Retry(maxRetries, Initial(tracker), obs, step).requests == 0
  {
    RetryStopsAtFirstReturn(maxRetries, Initial(tracker), obs, step);
  }

  // ---------------------------------------------------------------------------
  // The single attempt of twitter_redirect_anz.py

  /** What the one attempt of `twitter_redirect_anz.py` observed: driver setup
      raised (a `WebDriverException` or another exception, after or before a
      handle was assigned); `set_window_size` raised; or the page was requested. */
  datatype AnzAttempt =
    | SetupFault(f: Fault, acquired: bool)
    | WindowFault
    | AnzBrowse(load: Load, height: HeightProbe, passes: nat -> PassObs)

  /** The returned list, the tracker afterwards, and whether `quit` was called. */
  datatype AnzEnd = AnzEnd(tweets: seq<Tweet>, tracker: Tracker, quit: bool)

  /** The page is on twitter.com search or explore and not on a login flow. */
  predicate AnzOnSearchPage(l: Load) {
    l.Loaded? && l.page.url.Some? && l.page.title.Some? && !IsRedirectAnz(l.page.url.value, l.page.title.value)
  }

  /** `scrape_twitter_trends` of `twitter_redirect_anz.py`: every failure returns
      `[]`, and `quit` is called whenever a handle was assigned. */
  function ScrapeAnz(a: AnzAttempt, tracker: Tracker, h: string -> int): (r: AnzEnd)
    ensures r.quit <==> !(a.SetupFault? && !a.acquired)
    ensures r.tweets != [] ==> a.AnzBrowse? && AnzOnSearchPage(a.load) && a.height.Height?
    ensures KeysDistinct(r.tweets, NormText)
    ensures forall i :: 0 <= i < |r.tweets| ==> NormText(r.tweets[i]) != []
  {
    var t0 := Set(tracker, DriverSetup, InProgress);
    match a
    case SetupFault(f, acquired) =>
      // a `WebDriverException` is handled in place; anything else reaches the critical sweep
      var t1 := if f == DriverFault then Set(t0, DriverSetup, Failed) else Sweep(t0);
      AnzEnd([], t1, acquired)
    case WindowFault => AnzEnd([], Sweep(Set(t0, DriverSetup, Success)), true)
    case AnzBrowse(load, height, passes) =>
      var t1 := Set(Set(t0, DriverSetup, Success), PageLoad, InProgress);
      if !AnzOnSearchPage(load) then
        // timeout, load exception, unreadable URL or title, or redirect: `page_load`
        // fails before any handler raise could reach the critical sweep
        var t2 := Set(t1, PageLoad, Failed);
        AnzEnd([], if load.page.url.None? then Sweep(t2) else t2, true)
      else
        var t2 := Set(t1, PageLoad, Success);
        match height
        case HeightFault(_) => AnzEnd([], Sweep(t2), true)
        case Height(hgt) =>
          var (ts, t3, _) := ScrapeStage(AnzConfig, hgt, passes, t2, 0, h);
          AnzEnd(ts, t3, true)
  }

  /** A failed driver setup is recorded as such. */
  lemma AnzSetupFailure(a: AnzAttempt, tracker: Tracker, h: string -> int)
    requires a.SetupFault?
    ensures ScrapeAnz(a, tracker, h).tweets == []
    ensures DriverSetup in ScrapeAnz(a, tracker, h).tracker
    ensures ScrapeAnz(a, tracker, h).tracker[DriverSetup] == Failed
  {
  }

  /** Once URL and title can be read, `page_load` is recorded as failed exactly
      when the page is classified as a redirect; a failed load returns `[]`. */
  lemma AnzRedirectFails(a: AnzAttempt, tracker: Tracker, h: string -> int)
    requires a.AnzBrowse? && a.load.Loaded? && a.load.page.url.Some? && a.load.page.title.Some?
    ensures PageLoad in ScrapeAnz(a, tracker, h).tracker
    ensures ScrapeAnz(a, tracker, h).tracker[PageLoad] == Failed <==>
              IsRedirectAnz(a.load.page.url.value, a.load.page.title.value)
    ensures IsRedirectAnz(a.load.page.url.value, a.load.page.title.value) ==>
              ScrapeAnz(a, tracker, h).tweets == [] && DriverSetup in ScrapeAnz(a, tracker, h).tracker &&
              ScrapeAnz(a, tracker, h).tracker[DriverSetup] == Success
  {
    var t1 := Set(Set(Set(tracker, DriverSetup, InProgress), DriverSetup, Success), PageLoad, InProgress);
    if !IsRedirectAnz(a.load.page.url.value, a.load.page.title.value) {
      var t2 := Set(t1, PageLoad, Success);
      match a.height
      case HeightFault(_) =>
        assert Sweep(t2)[PageLoad] == Success;
      case Height(hgt) =>
        ScrapeStageFrame(AnzConfig, hgt, a.passes, t2, 0, h);
    }
  }

  // ---------------------------------------------------------------------------
  // twitter_trend_analysis.py

  /** What `twitter_trend_analysis.py` sees before its loop: a raise from the
      driver's creation, `set_window_size`, `get`, the login check's `title` or
      `page_source`, or the start-height script, none of them guarded; else the
      start height. */
  datatype TaOpen = TaOpenFault | TaOpened(height: int)

  /** The loop's state before its first pass. */
  function TaStart(height: int): (st: TaState)
    ensures TaInv(st) && !st.stopped && st.passes == 0
  {
    TaState([], 0, 0, height, false, false)
  }

  /** The loop, run from `height`, stopped at a pass whose scroll or height
      script raised. */
  predicate TaLoopRaises(height: int, passes: nat -> TaPassObs) {
    var st := TaRun(TaStart(height), passes);
    st.stopped && passes(st.passes).TaScriptFault?
  }

  /** `scrape_twitter_trends` of `twitter_trend_analysis.py`: the scroll loop from
      the start height, the page dump to `debug.html` and `driver.quit()`, the
      `strip()` text deduplication, then `remove_duplicates`. `None` is a raise;
      `dumped` says whether the dump and the quit succeed. */
  function ScrapeTa(open: TaOpen, passes: nat -> TaPassObs, dumped: bool, h: string -> int): (r: Option<seq<Tweet>>)
    ensures r.None? <==> open.TaOpenFault? || (open.TaOpened? && TaLoopRaises(open.height, passes)) || !dumped
    ensures r.Some? ==> KeysDistinct(r.value, (t: Tweet) => h(t.text))
    ensures r.Some? ==> forall i :: 0 <= i < |r.value| ==> StripText(r.value[i]) != []
    ensures r.Some? ==> RemoveDuplicates(r.value, h) == r.value
  {
    match open
    case TaOpenFault => None
    case TaOpened(height) =>
      var st := TaRun(TaStart(height), passes);
      if st.raised || !dumped then None
      else
        var once := StripDedup(st.tweets);
        var r := RemoveDuplicates(once, h);
        RemoveDuplicatesIdempotent(once, h);
        forall i | 0 <= i < |r| ensures StripText(r[i]) != [] {
          SubseqMember(r, once, i);
        }
        Some(r)
  }

  /** The scroll script raising on the first pass ends the whole scrape in a
      raise, whatever the set-up found and however the dump would go. */
  lemma ScrapeTaRaisesOnFirstPass(height: int, passes: nat -> TaPassObs, dumped: bool, h: string -> int)
    requires passes(0).TaScriptFault?
    ensures ScrapeTa(TaOpened(height), passes, dumped, h).None?
  {
    TaRaisesAtPass(TaStart(height), passes);
  }
}
