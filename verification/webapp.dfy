/** The pure helpers of the Flask front end `app.py`: sentiment buckets over
    relevancy scores, the progress percentage streamed while an analysis runs,
    the mapping between search terms and result file names, and the ranked
    lists of the trend, hashtag and history endpoints. Directory listings and
    YAML loading are left to the caller: each helper takes what was read. */
module WebApp {
  import opened Text
  import opened Ranking
  import opened Tweets
  import opened Pipeline

  // ---------------------------------------------------------------------------
  // calculate_sentiment

  /** Python's `round` of the exact quotient `num / den`: to the nearest
      integer, halves to the even neighbour. */
  function RoundHalfEven(num: int, den: int): (r: int)
    requires den > 0
    ensures -den <= 2 * (num - r * den) <= den
    ensures (2 * (num - r * den) == den || 2 * (num - r * den) == -den) ==> r % 2 == 0
  {
    var q := num / den;
    var rem := num % den;
    if 2 * rem > den then q + 1
    else if 2 * rem < den then q
    else if q % 2 == 0 then q else q + 1
  }

  /** `tweet.get('relevancy_score', 50)`. */
  function SentimentScore(t: Tweet): int { t.score.GetOr(50) }

  datatype Mood = Positive | Neutral | Negative

  /** The bucket of one tweet: at least 75 is positive, 40 to 74 neutral, the rest negative. */
  function MoodOf(t: Tweet): Mood {
    var s := SentimentScore(t);
    if s >= 75 then Positive else if s >= 40 then Neutral else Negative
  }

  datatype Counts = Counts(positive: nat, neutral: nat, negative: nat) {
    function Of(m: Mood): nat {
      match m
      case Positive => positive
      case Neutral => neutral
      case Negative => negative
    }
  }

  /** The counting loop of `calculate_sentiment`. */
  function Tally(ts: seq<Tweet>): Counts {
    if ts == [] then Counts(0, 0, 0)
    else
      var c := Tally(ts[1..]);
      match MoodOf(ts[0])
      case Positive => c.(positive := c.positive + 1)
      case Neutral => c.(neutral := c.neutral + 1)
      case Negative => c.(negative := c.negative + 1)
  }

  /** Every tweet lands in exactly one bucket, so the counts sum to the number
      of tweets and the `total == 0` branch is unreachable for a non-empty list. */
  lemma {:induction false} TallyTotal(ts: seq<Tweet>)
    ensures Tally(ts).positive + Tally(ts).neutral + Tally(ts).negative == |ts|
  {
    if ts != [] {
      TallyTotal(ts[1..]);
    }
  }

  /** The bucket of every tweet, in order. */
  function Moods(ts: seq<Tweet>): seq<Mood> {
    seq(|ts|, i requires 0 <= i < |ts| => MoodOf(ts[i]))
  }

  /** Each count is the number of tweets whose score lies in its bucket. */
  lemma {:induction false} TallyCounts(ts: seq<Tweet>, m: Mood)
    ensures Tally(ts).Of(m) == multiset(Moods(ts))[m]
  {
    if ts != [] {
      TallyCounts(ts[1..], m);
      assert Moods(ts) == [MoodOf(ts[0])] + Moods(ts[1..]);
    }
  }

  datatype Sentiment = Sentiment(positive: int, neutral: int, negative: int)

  /** `calculate_sentiment`: the fixed 33/34/33 split for no tweets, otherwise
      each bucket's share of the tweets as a rounded percentage. */
  function CalculateSentiment(ts: seq<Tweet>): (r: Sentiment)
    ensures ts == [] ==> r == Sentiment(33, 34, 33)
    ensures 0 <= r.positive <= 100 && 0 <= r.neutral <= 100 && 0 <= r.negative <= 100
  {
    var c := Tally(ts);
    var total := c.positive + c.neutral + c.negative;
    if total == 0 then Sentiment(33, 34, 33)
    else
      ShareInRange(c.positive, total);
      ShareInRange(c.neutral, total);
      ShareInRange(c.negative, total);
      Sentiment(RoundHalfEven(100 * c.positive, total), RoundHalfEven(100 * c.neutral, total),
                RoundHalfEven(100 * c.negative, total))
  }

  /** A rounded share of a whole is a percentage. */
  lemma ShareInRange(part: nat, whole: nat)
    requires 0 < whole && part <= whole
    ensures 0 <= RoundHalfEven(100 * part, whole) <= 100
  {
    var r := RoundHalfEven(100 * part, whole);
    if r < 0 {
      MulMono(r, -1, whole);
    } else if r > 100 {
      MulMono(101, r, whole);
    }
  }

  lemma MulMono(a: int, b: int, n: int)
    requires n >= 0 && a <= b
    ensures a * n <= b * n
  {
  }

  lemma Distribute(x: int, y: int, z: int, n: int)
    ensures (x + y + z) * n == x * n + y * n + z * n
    ensures (100 - (x + y + z)) * n == 100 * n - (x + y + z) * n
  {
  }

  /** Three rounded shares of a whole add up to 100 give or take one. */
  lemma RoundedSharesSum(a: nat, b: nat, c: nat)
    requires a + b + c > 0
    ensures var n := a + b + c;
            99 <= RoundHalfEven(100 * a, n) + RoundHalfEven(100 * b, n) + RoundHalfEven(100 * c, n) <= 101
  {
    var n := a + b + c;
    var ra, rb, rc := RoundHalfEven(100 * a, n), RoundHalfEven(100 * b, n), RoundHalfEven(100 * c, n);
    Distribute(ra, rb, rc, n);
    var d := 100 - (ra + rb + rc);
    assert -3 * n <= 2 * (d * n) <= 3 * n;
    if d >= 2 {
      MulMono(2, d, n);
    } else if d <= -2 {
      MulMono(d, -2, n);
    }
  }

  /** For a non-empty list each percentage is `round(100 * count / total)`
      with `total` the number of tweets, and the three add up to 99, 100 or 101. */
  lemma SentimentShares(ts: seq<Tweet>)
    requires ts != []
    ensures var c := Tally(ts);
            var r := CalculateSentiment(ts);
            r.positive == RoundHalfEven(100 * c.positive, |ts|) &&
            r.neutral == RoundHalfEven(100 * c.neutral, |ts|) &&
            r.negative == RoundHalfEven(100 * c.negative, |ts|) &&
            99 <= r.positive + r.neutral + r.negative <= 101
  {
    TallyTotal(ts);
    var c := Tally(ts);
    RoundedSharesSum(c.positive, c.neutral, c.negative);
  }

  // ---------------------------------------------------------------------------
  // Progress of search().generate

  const StepTag: string := "[STEP "

  /** `int(message.split("[STEP ")[1].split("/")[0])` for a message containing
      `"[STEP "`: the text after the first tag, up to the next tag, cut at the
      first `/`; `None` for a message without the tag or a `ValueError`. */
  function ParseStep(msg: string): (r: Option<int>)
    ensures r.Some? ==> Contains(msg, StepTag)
  {
    match SecondPiece(msg, StepTag)
    case None => None
    case Some(piece) => ParseInt(BeforeFirst(piece, '/'))
  }

  /** `min(int((current_step / total_steps) * 100), 95)` with five steps. */
  function Percentage(step: int): (r: int)
    ensures r <= 95
    ensures 0 <= step ==> 0 <= r
  {
    if step * 20 < 95 then step * 20 else 95
  }

  /** The percentages streamed with the messages: a message with a step number
      sets the current step, any other leaves it as it was. */
  function Progress(msgs: seq<string>, step: int): (r: seq<int>)
    ensures |r| == |msgs|
  {
    if msgs == [] then []
    else
      var s := ParseStep(msgs[0]).GetOr(step);
      [Percentage(s)] + Progress(msgs[1..], s)
  }

  /** The whole event stream: one percentage per message, then the completion
      event's 100. */
  function Events(msgs: seq<string>): (r: seq<int>)
    ensures |r| == |msgs| + 1 && r[|msgs|] == 100
    ensures forall i :: 0 <= i < |msgs| ==> r[i] <= 95
  {
    ProgressBounded(msgs, 0);
    Progress(msgs, 0) + [100]
  }

  lemma {:induction false} ProgressBounded(msgs: seq<string>, step: int)
    ensures forall i :: 0 <= i < |msgs| ==> Progress(msgs, step)[i] <= 95
  {
    if msgs != [] {
      ProgressBounded(msgs[1..], ParseStep(msgs[0]).GetOr(step));
    }
  }

  /** The percentage after message `i` is that of the step the latest message
      with a step number up to `i` names, and 0 when there is none. */
  function LatestStep(msgs: seq<string>, step: int): int {
    if msgs == [] then step else LatestStep(msgs[1..], ParseStep(msgs[0]).GetOr(step))
  }

  lemma {:induction false} ProgressFollowsLatest(msgs: seq<string>, step: int, i: int)
    requires 0 <= i < |msgs|
    decreases i
    ensures Progress(msgs, step)[i] == Percentage(LatestStep(msgs[..i + 1], step))
  {
    var s := ParseStep(msgs[0]).GetOr(step);
    if i == 0 {
      LatestStepFirst(msgs, step, s);
      ProgressCons(msgs, step, 0);
    } else {
      LatestStepCons(msgs, step, i);
      ProgressCons(msgs, step, i);
      ProgressFollowsLatest(msgs[1..], s, i - 1);
    }
  }

  lemma LatestStepFirst(msgs: seq<string>, step: int, s: int)
    requires msgs != [] && s == ParseStep(msgs[0]).GetOr(step)
    ensures LatestStep(msgs[..1], step) == s
  {
    assert msgs[..1][1..] == [];
  }

  /** The latest step up to message `i`, read off the first message. */
  lemma LatestStepCons(msgs: seq<string>, step: int, i: int)
    requires 0 <= i < |msgs|
    ensures LatestStep(msgs[..i + 1], step) == LatestStep(msgs[1..][..i], ParseStep(msgs[0]).GetOr(step))
  {
    var p := msgs[..i + 1];
    assert p[0] == msgs[0];
    assert p[1..] == msgs[1..][..i];
  }

  /** A message with a step number streams that step's percentage; any other
      repeats the percentage before it. */
  lemma {:induction false} ProgressAtMessage(msgs: seq<string>, step: int, i: int)
    requires 0 <= i < |msgs|
    decreases i
    ensures ParseStep(msgs[i]).Some? ==> Progress(msgs, step)[i] == Percentage(ParseStep(msgs[i]).value)
    ensures ParseStep(msgs[i]).None? && i > 0 ==> Progress(msgs, step)[i] == Progress(msgs, step)[i - 1]
  {
    var s := ParseStep(msgs[0]).GetOr(step);
    ProgressCons(msgs, step, i);
    if i > 0 {
      ProgressAtMessage(msgs[1..], s, i - 1);
      assert msgs[1..][i - 1] == msgs[i];
      ProgressCons(msgs, step, i - 1);
      if i == 1 {
        ProgressCons(msgs[1..], s, 0);
      }
    }
  }

  /** Position `i` of the stream, read off its first message. */
  lemma ProgressCons(msgs: seq<string>, step: int, i: int)
    requires 0 <= i < |msgs|
    ensures var s := ParseStep(msgs[0]).GetOr(step);
            Progress(msgs, step)[i] == if i == 0 then Percentage(s) else Progress(msgs[1..], s)[i - 1]
  {
  }

  /** Unfolding `LatestStep` from the end. */
  lemma {:induction false} LatestStepLast(msgs: seq<string>, step: int)
    requires msgs != []
    ensures LatestStep(msgs, step) ==
              ParseStep(msgs[|msgs| - 1]).GetOr(LatestStep(msgs[..|msgs| - 1], step))
  {
    if |msgs| > 1 {
      var s := ParseStep(msgs[0]).GetOr(step);
      LatestStepLast(msgs[1..], s);
      assert msgs[1..][..|msgs| - 2] == msgs[..|msgs| - 1][1..];
    }
  }

  /** The text after a leading tag, when nothing later opens another one. */
  lemma AfterTag(body: string)
    requires '[' !in body
    ensures SecondPiece(StepTag + body, StepTag) == Some(body)
  {
    var msg := StepTag + body;
    assert OccursAt(msg, StepTag, 0);
    assert Find(msg, StepTag) == Some(0);
    assert msg[|StepTag|..] == body;
    NoOccurrenceWithout(body, StepTag, '[');
  }

  /** A tagged message with nothing tag-like after the tag parses to its number. */
  lemma StepMessageParses(k: nat, what: string)
    requires '[' !in what
    ensures ParseStep(StepMessage(k, what)) == Some(k)
  {
    var digits := NatToString(k);
    var body := digits + ("/5] " + what);
    assert StepMessage(k, what) == StepTag + body;
    NatToStringPlain(k);
    AfterTag(body);
    BeforeFirstAppend(digits, "/5] " + what, '/');
    ParseNatToString(k);
  }

  lemma NatToStringPlain(k: nat)
    ensures '[' !in NatToString(k) && '/' !in NatToString(k)
  {
    var s := NatToString(k);
    assert forall i :: 0 <= i < |s| ==> IsDigit(s[i]);
  }

  /** `int(str(k)) == k`. */
  lemma ParseNatToString(k: nat)
    ensures ParseInt(NatToString(k)) == Some(k)
  {
    StripUnspaced(NatToString(k));
    DigitsRoundTrip(k);
  }

  lemma {:induction false} DigitsRoundTrip(k: nat)
    ensures DigitsValue(NatToString(k)) == k
  {
    if k >= 10 {
      DigitsRoundTrip(k / 10);
      var s := NatToString(k);
      assert s[..|s| - 1] == NatToString(k / 10);
    }
  }

  /** Text that neither starts nor ends with whitespace is its own strip. */
  lemma StripUnspaced(s: string)
    requires s != [] && !IsSpace(s[0]) && !IsSpace(s[|s| - 1])
    ensures Strip(s) == s
  {
    assert TrimLeft(s) == s;
    assert TrimRight(s) == s;
  }

  /** The percentage streamed with a step message is that of its step. */
  lemma ProgressAtStep(msgs: seq<string>, i: int, k: nat, what: string)
    requires 0 <= i < |msgs| && msgs[i] == StepMessage(k, what) && '[' !in what
    ensures Events(msgs)[i] == Percentage(k)
  {
    StepMessageParses(k, what);
    ProgressAtMessage(msgs, 0, i);
  }

  /** Messages carrying steps 1 to 5 at these places stream 20, 40, 60, 80
      and 95 there. */
  lemma StepsProgress(msgs: seq<string>, w1: string, w2: string, w3: string, w4: string, w5: string)
    requires |msgs| >= 9
    requires '[' !in w1 && '[' !in w2 && '[' !in w3 && '[' !in w4 && '[' !in w5
    requires msgs[2] == StepMessage(1, w1) && msgs[4] == StepMessage(2, w2) &&
             msgs[6] == StepMessage(3, w3) && msgs[7] == StepMessage(4, w4) && msgs[8] == StepMessage(5, w5)
    ensures var e := Events(msgs);
            e[2] == 20 && e[4] == 40 && e[6] == 60 && e[7] == 80 && e[8] == 95
  {
    ProgressAtStep(msgs, 2, 1, w1);
    ProgressAtStep(msgs, 4, 2, w2);
    ProgressAtStep(msgs, 6, 3, w3);
    ProgressAtStep(msgs, 7, 4, w4);
    ProgressAtStep(msgs, 8, 5, w5);
  }

  /** Where the five step messages sit in the stream. */
  lemma StreamSteps(term: string, found: nat, trend: int, ranked: seq<Tweet>)
    ensures var msgs := Stream(term, found, trend, ranked);
            msgs[2] == StepMessage(1, "Scraping and initial deduplicating tweets...") &&
            msgs[4] == StepMessage(2, "Saving unique raw tweets...") &&
            msgs[6] == StepMessage(3, "Calculating relevancy scores...") &&
            msgs[7] == StepMessage(4, "Sorting tweets by relevancy...") &&
            msgs[8] == StepMessage(5, "Saving scored results...")
  {
    var n := if |ranked| < 5 then |ranked| else 5;
    var close := Closing(term, trend, |ranked|);
    var msgs := Stream(term, found, trend, ranked);
    assert msgs == Opening(term, found) + close + TopLines(ranked[..n]);
    assert msgs[4] == close[0] && msgs[6] == close[2] && msgs[7] == close[3] && msgs[8] == close[4];
  }

  /** The stream of a run that scraped tweets reports 20, 40, 60, 80 and 95 at
      its five step messages, whatever the search term, and ends on 100. */
  lemma StreamProgress(term: string, found: nat, trend: int, ranked: seq<Tweet>)
    ensures var e := Events(Stream(term, found, trend, ranked));
            |e| >= 15 && e[2] == 20 && e[4] == 40 && e[6] == 60 && e[7] == 80 && e[8] == 95 &&
            e[|e| - 1] == 100
  {
    var msgs := Stream(term, found, trend, ranked);
    var w1, w2, w3, w4, w5 := StepTexts();
    StreamSteps(term, found, trend, ranked);
    StepsProgress(msgs, w1, w2, w3, w4, w5);
  }

  /** The texts of the five step messages, none of which opens a bracket. */
  lemma StepTexts() returns (w1: string, w2: string, w3: string, w4: string, w5: string)
    ensures w1 == "Scraping and initial deduplicating tweets..." && w2 == "Saving unique raw tweets..." &&
            w3 == "Calculating relevancy scores..." && w4 == "Sorting tweets by relevancy..." &&
            w5 == "Saving scored results..."
    ensures '[' !in w1 && '[' !in w2 && '[' !in w3 && '[' !in w4 && '[' !in w5
  {
    w1, w2, w3, w4, w5 := "Scraping and initial deduplicating tweets...", "Saving unique raw tweets...",
      "Calculating relevancy scores...", "Sorting tweets by relevancy...", "Saving scored results...";
  }

  /** The same for the stream of a run over any non-empty scrape. */
  lemma RunProgress(term: string, raw: seq<Tweet>, stopwords: bool, sim: Scoring.Similarity)
    requires raw != []
    ensures var e := Events(Analyse(term, raw, stopwords, sim).messages);
            |e| >= 15 && e[2] == 20 && e[4] == 40 && e[6] == 60 && e[7] == 80 && e[8] == 95
  {
    var sc := Scoring.Score(raw, term, stopwords, sim);
    StreamProgress(term, |raw|, sc.trend, Ranked(sc.tweets));
  }

  /** A search term carrying a negative step number, echoed by the opening
      message, drives the percentage streamed with it below zero. */
  lemma NegativeStepInTerm(k: nat)
    requires k > 0
    ensures ParseStep(StepTag + ("-" + NatToString(k) + "/")) == Some(-(k as int))
    ensures Percentage(-(k as int)) < 0
  {
    var digits := NatToString(k);
    NatToStringPlain(k);
    AfterTag("-" + digits + "/");
    BeforeFirstAppend("-" + digits, "/", '/');
    ParseNegative(k);
  }

  /** `int("-" + str(k)) == -k`. */
  lemma ParseNegative(k: nat)
    ensures ParseInt("-" + NatToString(k)) == Some(-(k as int))
  {
    DigitsRoundTrip(k);
    ParseSigned(NatToString(k), k);
  }

  /** A minus sign before digits parses to the negated digits. */
  lemma ParseSigned(d: string, n: nat)
    requires IsDigits(d) && DigitsValue(d) == n
    ensures ParseInt("-" + d) == Some(-(n as int))
  {
    var t := "-" + d;
    assert t[|t| - 1] == d[|d| - 1];
    StripUnspaced(t);
    ParseMinus(t, d);
  }

  // ---------------------------------------------------------------------------
  // Term and file name

  const ResultsTail: string := "results.yaml"
  const ResultsSuffix: string := "_" + ResultsTail

  /** `f"{term.replace(' ', '_')}_results.yaml"`. */
  function FileOf(term: string): (r: string)
    ensures EndsWith(r, ResultsSuffix)
  {
    var r := ReplaceChar(term, ' ', '_') + ResultsSuffix;
    assert r[|r| - |ResultsSuffix|..] == ResultsSuffix;
    r
  }

  /** `filename.replace('_results.yaml', '').replace('_', ' ')`. */
  function TermOf(filename: string): string {
    ReplaceAll(ReplaceAll(filename, ResultsSuffix, ""), "_", " ")
  }

  /** The listing recovers every term that has no `_` and does not contain
      `" results.yaml"`. */
  lemma TermRoundTrip(term: string)
    requires '_' !in term
    requires !Contains(term, " results.yaml")
    ensures TermOf(FileOf(term)) == term
  {
    assert " results.yaml" == " " + ResultsTail;
    RoundTripWith(term, ResultsTail);
  }

  /** The round trip for any tail free of spaces and underscores. */
  lemma RoundTripWith(term: string, tail: string)
    requires '_' !in term && ' ' !in tail && '_' !in tail
    requires !Contains(term, " " + tail)
    ensures ReplaceAll(ReplaceAll(ReplaceChar(term, ' ', '_') + ("_" + tail), "_" + tail, ""), "_", " ") == term
  {
    var t := ReplaceChar(term, ' ', '_');
    var p := "_" + tail;
    forall j | 0 <= j < |t| ensures !OccursAt(t + p, p, j) {
      NoEarlySuffix(term, tail, j);
    }
    SkipPlain(t, p, p);
    DropWhole(p);
    assert t + "" == t;
    ReplaceAllChar(t, '_', ' ');
    ReplaceCharBack(term);
  }

  /** No copy of `"_" + tail` starts inside the replaced term. */
  lemma NoEarlySuffix(term: string, tail: string, j: int)
    requires '_' !in term && ' ' !in tail && '_' !in tail
    requires !Contains(term, " " + tail)
    requires 0 <= j < |ReplaceChar(term, ' ', '_')|
    ensures !OccursAt(ReplaceChar(term, ' ', '_') + ("_" + tail), "_" + tail, j)
  {
    var t := ReplaceChar(term, ' ', '_');
    var p := "_" + tail;
    var s := t + p;
    if j + |p| > |t| {
      var k := |t| - j;
      if j + |p| <= |s| {
        assert s[j..j + |p|][k] == s[|t|] == '_';
        assert p[k] == tail[k - 1];
        assert tail[k - 1] in tail;
      }
    } else if OccursAt(s, p, j) {
      assert t[j..j + |p|] == s[j..j + |p|];
      SpacedSuffixAt(term, tail, j);
      assert false;
    }
  }

  /** A copy of `"_" + tail` inside the replaced term was `" " + tail` before. */
  lemma SpacedSuffixAt(term: string, tail: string, j: int)
    requires '_' !in term && ' ' !in tail && '_' !in tail
    requires 0 <= j && j + 1 + |tail| <= |term|
    requires OccursAt(ReplaceChar(term, ' ', '_'), "_" + tail, j)
    ensures OccursAt(term, " " + tail, j)
  {
    var t := ReplaceChar(term, ' ', '_');
    LeadAndTail(t, '_', tail, j);
    UnderscoreWasSpace(term, j);
    forall k | 0 <= k < |tail| ensures term[j + 1 + k] == tail[k] {
      PlainCharKept(term, j + 1 + k, tail, k);
    }
    LeadAndTailBack(term, ' ', tail, j);
  }

  /** An occurrence of `[c] + tail` is `c` followed by `tail`. */
  lemma LeadAndTail(s: string, c: char, tail: string, j: int)
    requires OccursAt(s, [c] + tail, j)
    ensures s[j] == c
    ensures forall k :: 0 <= k < |tail| ==> s[j + 1 + k] == tail[k]
  {
    assert s[j] == s[j..j + 1 + |tail|][0];
    forall k | 0 <= k < |tail| ensures s[j + 1 + k] == tail[k] {
      assert s[j + 1 + k] == s[j..j + 1 + |tail|][k + 1];
    }
  }

  lemma LeadAndTailBack(s: string, c: char, tail: string, j: int)
    requires 0 <= j && j + 1 + |tail| <= |s|
    requires s[j] == c
    requires forall k :: 0 <= k < |tail| ==> s[j + 1 + k] == tail[k]
    ensures OccursAt(s, [c] + tail, j)
  {
    assert s[j..j + 1 + |tail|] == [c] + tail;
  }

  /** An `_` in the replaced term stands for a space of the original. */
  lemma UnderscoreWasSpace(term: string, i: int)
    requires '_' !in term && 0 <= i < |term|
    requires ReplaceChar(term, ' ', '_')[i] == '_'
    ensures term[i] == ' '
  {
    assert term[i] in term;
  }

  /** Any other character of the replaced term is the original one. */
  lemma PlainCharKept(term: string, i: int, tail: string, k: int)
    requires 0 <= i < |term| && 0 <= k < |tail| && ' ' !in tail && '_' !in tail
    requires ReplaceChar(term, ' ', '_')[i] == tail[k]
    ensures term[i] == tail[k]
  {
    assert tail[k] in tail;
  }

  /** `replace(p, "")` passes over a prefix in which no copy of `p` starts. */
  lemma {:induction false} SkipPlain(a: string, rest: string, p: string)
    requires |p| > 0
    requires forall j :: 0 <= j < |a| ==> !OccursAt(a + rest, p, j)
    ensures ReplaceAll(a + rest, p, "") == a + ReplaceAll(rest, p, "")
  {
    var s := a + rest;
    if a == [] {
      assert s == rest;
    } else if |s| >= |p| {
      assert !OccursAt(s, p, 0);
      assert s[1..] == a[1..] + rest;
      forall j | 0 <= j < |a[1..]| ensures !OccursAt(a[1..] + rest, p, j) {
        assert !OccursAt(s, p, j + 1);
        if j + |p| <= |a[1..] + rest| {
          assert (a[1..] + rest)[j..j + |p|] == s[j + 1..j + 1 + |p|];
        }
      }
      SkipPlain(a[1..], rest, p);
      assert a == [a[0]] + a[1..];
    }
  }

  /** Removing a pattern from itself leaves nothing. */
  lemma DropWhole(p: string)
    requires |p| > 0
    ensures ReplaceAll(p, p, "") == ""
  {
    assert p[..|p|] == p;
    assert p[|p|..] == [];
  }

  /** Replacing a one-character pattern is replacing that character. */
  lemma {:induction false} ReplaceAllChar(s: string, a: char, b: char)
    ensures ReplaceAll(s, [a], [b]) == ReplaceChar(s, a, b)
  {
    if s != [] {
      ReplaceAllChar(s[1..], a, b);
      if s[0] == a {
        assert s[..1] == [a];
      }
    }
  }

  /** Putting spaces back where `_` stands undoes the replacement on a term
      without `_`. */
  lemma ReplaceCharBack(term: string)
    requires '_' !in term
    ensures ReplaceChar(ReplaceChar(term, ' ', '_'), '_', ' ') == term
  {
  }

  /** A term ending in `" results.yaml"` comes back without that ending, so
      the round trip needs its second precondition. */
  lemma SuffixTermLost(a: string)
    requires ' ' !in a && '_' !in a
    ensures TermOf(FileOf(a + " results.yaml")) == a
  {
    assert " results.yaml" == " " + ResultsTail;
    SuffixLostWith(a, ResultsTail);
  }

  lemma SuffixLostWith(a: string, tail: string)
    requires ' ' !in a && '_' !in a && ' ' !in tail && '_' !in tail
    ensures ReplaceAll(ReplaceAll(ReplaceChar(a + (" " + tail), ' ', '_') + ("_" + tail), "_" + tail, ""), "_", " ") == a
  {
    ReplaceSpaced(a, tail);
    DropTwoCopies(a, "_" + tail);
    UnderscoreFree(a);
  }

  /** Removing the pattern from text without its first character followed by
      two copies of it leaves the text. */
  lemma DropTwoCopies(a: string, p: string)
    requires |p| > 0 && p[0] !in a
    ensures ReplaceAll(a + (p + p), p, "") == a
  {
    NoCopyIn(a, p + p, p);
    SkipPlain(a, p + p, p);
    DropLeading(p, p);
    DropWhole(p);
  }

  /** Text without `_` is unchanged by `replace('_', ' ')`. */
  lemma UnderscoreFree(a: string)
    requires '_' !in a
    ensures ReplaceAll(a, "_", " ") == a
  {
    ReplaceAllChar(a, '_', ' ');
    assert ReplaceChar(a, '_', ' ') == a;
  }

  /** A leading copy of the pattern is removed. */
  lemma DropLeading(p: string, rest: string)
    requires |p| > 0
    ensures ReplaceAll(p + rest, p, "") == ReplaceAll(rest, p, "")
  {
    assert (p + rest)[..|p|] == p;
    assert (p + rest)[|p|..] == rest;
  }

  lemma ReplaceSpaced(a: string, tail: string)
    requires ' ' !in a && ' ' !in tail && '_' !in tail
    ensures ReplaceChar(a + (" " + tail), ' ', '_') == a + ("_" + tail)
    ensures ReplaceChar(a + (" " + tail), ' ', '_') + ("_" + tail) == a + (("_" + tail) + ("_" + tail))
  {
    var s := a + (" " + tail);
    var r := ReplaceChar(s, ' ', '_');
    var q := a + ("_" + tail);
    forall i | 0 <= i < |r| ensures r[i] == q[i] {
      if i < |a| {
        assert s[i] == a[i] == q[i];
        assert a[i] in a;
      } else if i > |a| {
        assert s[i] == tail[i - |a| - 1] == q[i];
        assert tail[i - |a| - 1] in tail;
      }
    }
  }

  /** No copy of a pattern begins inside text without its first character. */
  lemma NoCopyIn(a: string, rest: string, p: string)
    requires p != [] && p[0] !in a
    ensures forall j :: 0 <= j < |a| ==> !OccursAt(a + rest, p, j)
  {
    forall j | 0 <= j < |a| ensures !OccursAt(a + rest, p, j) {
      assert (a + rest)[j] == a[j];
      assert a[j] in a;
      if j + |p| <= |a + rest| {
        assert (a + rest)[j..j + |p|][0] == a[j];
      }
    }
  }

  // ---------------------------------------------------------------------------
  // Ranked lists of the endpoints

  /** `get_term_details`: the ten highest-scoring tweets. */
  function TopTweets(ts: seq<Tweet>): (r: seq<Tweet>)
    ensures |r| == if |ts| < 10 then |ts| else 10
    ensures SortedDesc(r, ScoreKey)
    ensures multiset(r) <= multiset(ts)
  {
    TopN(ts, ScoreKey, 10)
  }

  /** No tweet left out of the top ten scores more than one listed. */
  lemma TopTweetsDominate(ts: seq<Tweet>, x: Tweet, i: int)
    requires x in multiset(ts) - multiset(TopTweets(ts))
    requires 0 <= i < |TopTweets(ts)|
    ensures ScoreKey(x) <= ScoreKey(TopTweets(ts)[i])
  {
    TopNDominates(ts, ScoreKey, 10, x, i);
  }

  /** One `{"term": ..., "count": ...}` entry. */
  datatype TermCount = TermCount(term: string, count: nat)

  function CountOf(e: TermCount): int { e.count }

  /** `term_counts[term] = n` on an insertion-ordered dict: an existing key keeps
      its place and takes the new count; a new key goes last. */
  function Put(d: seq<TermCount>, term: string, n: nat): (r: seq<TermCount>)
    ensures |r| == |d| || |r| == |d| + 1
  {
    if d == [] then [TermCount(term, n)]
    else if d[0].term == term then [TermCount(term, n)] + d[1..]
    else [d[0]] + Put(d[1..], term, n)
  }

  /** `r` holds `term` with count `n`, and otherwise exactly the entries of `d`
      for other terms. */
  predicate IsPut(d: seq<TermCount>, term: string, n: nat, r: seq<TermCount>) {
    && (exists i :: 0 <= i < |r| && r[i] == TermCount(term, n))
    && (forall i :: 0 <= i < |r| && r[i].term != term ==> r[i] in d)
    && (forall e :: e in d && e.term != term ==> e in r)
  }

  lemma {:induction false} PutSpec(d: seq<TermCount>, term: string, n: nat)
    decreases |d|
    ensures IsPut(d, term, n, Put(d, term, n))
  {
    if d == [] {
      assert Put(d, term, n)[0] == TermCount(term, n);
    } else if d[0].term == term {
      var r := [TermCount(term, n)] + d[1..];
      assert r[0] == TermCount(term, n);
      assert forall i :: 1 <= i < |r| ==> r[i] == d[i];
      assert forall e :: e in d && e.term != term ==> e in d[1..];
    } else {
      PutSpec(d[1..], term, n);
      PutCons(d, term, n, Put(d[1..], term, n));
    }
  }

  /** An existing key keeps its place: the entry at the first index holding
      `term` takes the new count, and every other entry stays where it was. */
  lemma {:induction false} PutKeepsPlace(d: seq<TermCount>, term: string, n: nat, i: int)
    requires 0 <= i < |d| && d[i].term == term
    requires forall j :: 0 <= j < i ==> d[j].term != term
    decreases i
    ensures |Put(d, term, n)| == |d| && Put(d, term, n)[i] == TermCount(term, n)
    ensures forall j :: 0 <= j < |d| && j != i ==> Put(d, term, n)[j] == d[j]
  {
    if i > 0 {
      PutKeepsPlace(d[1..], term, n, i - 1);
      var rest := Put(d[1..], term, n);
      assert Put(d, term, n) == [d[0]] + rest;
      forall j | 1 <= j < |d| && j != i ensures Put(d, term, n)[j] == d[j] {
        assert rest[j - 1] == d[1..][j - 1];
      }
    }
  }

  /** A new key goes last. */
  lemma {:induction false} PutAppends(d: seq<TermCount>, term: string, n: nat)
    requires forall j :: 0 <= j < |d| ==> d[j].term != term
    ensures Put(d, term, n) == d + [TermCount(term, n)]
  {
    if d != [] {
      PutAppends(d[1..], term, n);
      assert d == [d[0]] + d[1..];
    }
  }

  /** An entry for another term stays in front of the update of the rest. */
  lemma PutCons(d: seq<TermCount>, term: string, n: nat, rest: seq<TermCount>)
    requires d != [] && d[0].term != term
    requires IsPut(d[1..], term, n, rest)
    ensures IsPut(d, term, n, [d[0]] + rest)
  {
    var r := [d[0]] + rest;
    assert forall i :: 1 <= i < |r| ==> r[i] == rest[i - 1];
    var w :| 0 <= w < |rest| && rest[w] == TermCount(term, n);
    assert r[w + 1] == TermCount(term, n);
    assert forall e :: e in d && e != d[0] ==> e in d[1..];
  }

  predicate TermsDistinct(d: seq<TermCount>) {
    forall i, j :: 0 <= i < j < |d| ==> d[i].term != d[j].term
  }

  lemma {:induction false} PutDistinct(d: seq<TermCount>, term: string, n: nat)
    requires TermsDistinct(d)
    decreases |d|
    ensures TermsDistinct(Put(d, term, n))
  {
    if d != [] && d[0].term != term {
      TailDistinct(d);
      PutDistinct(d[1..], term, n);
      PutSpec(d[1..], term, n);
      ConsDistinct(d, term, n, Put(d[1..], term, n));
    } else if d != [] {
      var r := [TermCount(term, n)] + d[1..];
      forall i, j | 0 <= i < j < |r| ensures r[i].term != r[j].term {
        assert r[j] == d[j];
        if i > 0 { assert r[i] == d[i]; }
      }
    }
  }

  lemma TailDistinct(d: seq<TermCount>)
    requires d != [] && TermsDistinct(d)
    ensures TermsDistinct(d[1..])
  {
    forall i, j | 0 <= i < j < |d[1..]| ensures d[1..][i].term != d[1..][j].term {
      assert d[1..][i] == d[i + 1] && d[1..][j] == d[j + 1];
    }
  }

  /** The first entry's term is not among the updated rest. */
  lemma ConsDistinct(d: seq<TermCount>, term: string, n: nat, rest: seq<TermCount>)
    requires d != [] && d[0].term != term && TermsDistinct(d)
    requires TermsDistinct(rest)
    requires forall i :: 0 <= i < |rest| && rest[i].term != term ==> rest[i] in d[1..]
    ensures TermsDistinct([d[0]] + rest)
  {
    var r := [d[0]] + rest;
    forall j | 0 <= j < |rest| ensures d[0].term != rest[j].term {
      if rest[j].term != term {
        var k :| 0 <= k < |d[1..]| && d[1..][k] == rest[j];
        assert d[k + 1] == rest[j];
      }
    }
    forall i, j | 0 <= i < j < |r| ensures r[i].term != r[j].term {
      assert r[j] == rest[j - 1];
      if i > 0 {
        assert r[i] == rest[i - 1];
      }
    }
  }

  /** The dict built from the result files in listing order: one entry per
      term, counting the tweets of the last file that named it. */
  function TermCounts(files: seq<TermCount>): (r: seq<TermCount>)
    ensures TermsDistinct(r)
  {
    if files == [] then []
    else
      var d := TermCounts(files[..|files| - 1]);
      PutDistinct(d, files[|files| - 1].term, files[|files| - 1].count);
      Put(d, files[|files| - 1].term, files[|files| - 1].count)
  }

  /** The entry a term ends with is the last file that names it. */
  lemma {:induction false} TermCountsLast(files: seq<TermCount>, i: int)
    requires 0 <= i < |files|
    requires forall j :: i < j < |files| ==> files[j].term != files[i].term
    decreases |files|
    ensures files[i] in TermCounts(files)
  {
    var pre := files[..|files| - 1];
    var last := files[|files| - 1];
    PutSpec(TermCounts(pre), last.term, last.count);
    if i < |files| - 1 {
      assert pre[i] == files[i];
      forall j | i < j < |pre| ensures pre[j].term != pre[i].term {
        assert pre[j] == files[j];
      }
      TermCountsLast(pre, i);
    }
  }

  /** Every entry of the dict is one of the files. */
  lemma {:induction false} TermCountsFromFiles(files: seq<TermCount>)
    decreases |files|
    ensures forall e :: e in TermCounts(files) ==> e in files
  {
    if files != [] {
      var pre := files[..|files| - 1];
      var last := files[|files| - 1];
      TermCountsFromFiles(pre);
      PutSpec(TermCounts(pre), last.term, last.count);
      assert forall e :: e in pre ==> e in files;
    }
  }

  /** `get_trends`: the ten terms with the most tweets. */
  function TopTrends(files: seq<TermCount>): (r: seq<TermCount>)
    ensures |r| == if |TermCounts(files)| < 10 then |TermCounts(files)| else 10
    ensures SortedDesc(r, CountOf)
    ensures multiset(r) <= multiset(TermCounts(files))
  {
    TopN(TermCounts(files), CountOf, 10)
  }

  /** Each listed term appears once in the dict the top ten are drawn from, and
      none left out has more tweets than one listed. */
  lemma TopTrendsDominate(files: seq<TermCount>, e: TermCount, i: int)
    requires e in multiset(TermCounts(files)) - multiset(TopTrends(files))
    requires 0 <= i < |TopTrends(files)|
    ensures e.count <= TopTrends(files)[i].count
  {
    TopNDominates(TermCounts(files), CountOf, 10, e, i);
  }

  /** A `Counter` in first-seen order: each tag with its number of occurrences. */
  datatype TagCount = TagCount(tag: string, count: nat)

  function TagCountOf(e: TagCount): int { e.count }

  function Occurrences(tags: seq<string>, tag: string): nat {
    if tags == [] then 0 else (if tags[0] == tag then 1 else 0) + Occurrences(tags[1..], tag)
  }

  /** `Counter.update` over every tag of every tweet, in order. */
  function Counter(tags: seq<string>): (r: seq<TagCount>)
    ensures forall i :: 0 <= i < |r| ==> r[i].count == Occurrences(tags, r[i].tag)
    ensures forall i, j :: 0 <= i < j < |r| ==> r[i].tag != r[j].tag
    ensures forall t :: t in tags ==> exists i :: 0 <= i < |r| && r[i].tag == t
    ensures FirstSeenOrder(tags, r)
  {
    DistinctSpec(tags, []);
    DistinctOrder(tags, []);
    Distinct(tags, [])
  }

  /** The tags of `tags` not in `seen`, each once in first-seen order, with
      their counts in `tags`. */
  function Distinct(tags: seq<string>, seen: seq<string>): (r: seq<TagCount>)
    ensures |r| <= |tags|
  {
    if tags == [] then []
    else if tags[0] in seen then Distinct(tags[1..], seen)
    else [TagCount(tags[0], Occurrences(tags, tags[0]))] + Distinct(tags[1..], seen + [tags[0]])
  }

  /** `r` counts every tag of `tags` outside `seen` exactly once, and nothing else. */
  predicate CountsTags(tags: seq<string>, seen: seq<string>, r: seq<TagCount>) {
    && (forall i :: 0 <= i < |r| ==> r[i].count == Occurrences(tags, r[i].tag))
    && (forall i :: 0 <= i < |r| ==> r[i].tag !in seen && r[i].tag in tags)
    && (forall i, j :: 0 <= i < j < |r| ==> r[i].tag != r[j].tag)
    && (forall t :: t in tags && t !in seen ==> exists i :: 0 <= i < |r| && r[i].tag == t)
  }

  /** The first-seen walk counts each unseen tag once, with its number of occurrences. */
  lemma {:induction false} DistinctSpec(tags: seq<string>, seen: seq<string>)
    decreases |tags|
    ensures CountsTags(tags, seen, Distinct(tags, seen))
  {
    if tags != [] {
      if tags[0] in seen {
        DistinctSpec(tags[1..], seen);
        DistinctSkip(tags, seen, Distinct(tags[1..], seen));
      } else {
        DistinctSpec(tags[1..], seen + [tags[0]]);
        DistinctCons(tags, seen, Distinct(tags[1..], seen + [tags[0]]));
      }
    }
  }

  /** A tag already seen adds nothing to the walk. */
  lemma DistinctSkip(tags: seq<string>, seen: seq<string>, r: seq<TagCount>)
    requires tags != [] && tags[0] in seen
    requires CountsTags(tags[1..], seen, r)
    ensures CountsTags(tags, seen, r)
  {
    OccurrencesElsewhere(tags, r);
    forall t | t in tags && t !in seen ensures exists i :: 0 <= i < |r| && r[i].tag == t {
      assert t in tags[1..];
    }
  }

  /** A new tag goes first, with its count over the whole of `tags`. */
  lemma DistinctCons(tags: seq<string>, seen: seq<string>, rest: seq<TagCount>)
    requires tags != [] && tags[0] !in seen
    requires CountsTags(tags[1..], seen + [tags[0]], rest)
    ensures CountsTags(tags, seen, [TagCount(tags[0], Occurrences(tags, tags[0]))] + rest)
  {
    var r := [TagCount(tags[0], Occurrences(tags, tags[0]))] + rest;
    forall i | 0 <= i < |rest| ensures rest[i].tag != tags[0] && rest[i].tag !in seen && rest[i].tag in tags {
      assert rest[i].tag !in seen + [tags[0]];
    }
    OccurrencesElsewhere(tags, rest);
    ConsEntries(r[0], rest, r);
    DistinctConsCovers(tags, seen, rest, r);
  }

  /** The entries of `[x] + rest`, one by one. */
  lemma ConsEntries(x: TagCount, rest: seq<TagCount>, r: seq<TagCount>)
    requires r == [x] + rest
    ensures |r| == |rest| + 1 && r[0] == x
    ensures forall i :: 1 <= i < |r| ==> r[i] == rest[i - 1]
  {
  }

  /** Every unseen tag of `tags` has an entry once `tags[0]` is put in front. */
  lemma DistinctConsCovers(tags: seq<string>, seen: seq<string>, rest: seq<TagCount>, r: seq<TagCount>)
    requires tags != [] && |r| == |rest| + 1 && r[0].tag == tags[0]
    requires forall i :: 1 <= i < |r| ==> r[i] == rest[i - 1]
    requires forall t :: t in tags[1..] && t !in seen + [tags[0]] ==> exists i :: 0 <= i < |rest| && rest[i].tag == t
    ensures forall u :: u in tags && u !in seen ==> exists i :: 0 <= i < |r| && r[i].tag == u
  {
    forall u | u in tags && u !in seen ensures exists i :: 0 <= i < |r| && r[i].tag == u {
      if u == tags[0] {
        assert r[0].tag == u;
      } else {
        assert u in tags[1..];
        var i :| 0 <= i < |rest| && rest[i].tag == u;
        assert r[i + 1].tag == u;
      }
    }
  }

  /** `tags[0]` is counted once more in `tags` than in its tail. */
  lemma OccurrencesElsewhere(tags: seq<string>, rest: seq<TagCount>)
    requires tags != []
    requires forall i :: 0 <= i < |rest| ==> rest[i].count == Occurrences(tags[1..], rest[i].tag)
    requires forall i :: 0 <= i < |rest| ==> rest[i].tag != tags[0]
    ensures forall i :: 0 <= i < |rest| ==> rest[i].count == Occurrences(tags, rest[i].tag)
  {
  }

  /** Every occurrence of `b` in `tags` comes after an occurrence of `a`. */
  predicate SeenBefore(tags: seq<string>, a: string, b: string) {
    forall q :: 0 <= q < |tags| && tags[q] == b ==> a in tags[..q]
  }

  /** Entries are listed in the order their tags first occur. */
  predicate FirstSeenOrder(tags: seq<string>, r: seq<TagCount>) {
    forall i, j :: 0 <= i < j < |r| ==> SeenBefore(tags, r[i].tag, r[j].tag)
  }

  /** Putting a different tag in front keeps `a` ahead of `b`, as does `a`
      itself in front. */
  lemma SeenBeforeCons(tags: seq<string>, a: string, b: string)
    requires tags != [] && b != tags[0]
    requires a == tags[0] || SeenBefore(tags[1..], a, b)
    ensures SeenBefore(tags, a, b)
  {
    forall q | 0 <= q < |tags| && tags[q] == b ensures a in tags[..q] {
      assert tags[..q][0] == tags[0];
      if a != tags[0] {
        assert tags[1..][q - 1] == b;
        assert tags[1..][..q - 1] == tags[..q][1..];
      }
    }
  }

  /** The first-seen walk lists tags in the order they first occur. */
  lemma {:induction false} DistinctOrder(tags: seq<string>, seen: seq<string>)
    decreases |tags|
    ensures FirstSeenOrder(tags, Distinct(tags, seen))
  {
    if tags != [] {
      var r := Distinct(tags, seen);
      if tags[0] in seen {
        DistinctSpec(tags[1..], seen);
        DistinctOrder(tags[1..], seen);
        forall i, j | 0 <= i < j < |r| ensures SeenBefore(tags, r[i].tag, r[j].tag) {
          SeenBeforeCons(tags, r[i].tag, r[j].tag);
        }
      } else {
        var seen' := seen + [tags[0]];
        var rest := Distinct(tags[1..], seen');
        DistinctSpec(tags[1..], seen');
        DistinctOrder(tags[1..], seen');
        ConsEntries(r[0], rest, r);
        forall i, j | 0 <= i < j < |r| ensures SeenBefore(tags, r[i].tag, r[j].tag) {
          assert rest[j - 1].tag !in seen';
          if i > 0 {
            assert SeenBefore(tags[1..], rest[i - 1].tag, rest[j - 1].tag);
          }
          SeenBeforeCons(tags, r[i].tag, r[j].tag);
        }
      }
    }
  }

  /** Entries drawn, as a multiset, from a list with distinct tags have
      distinct tags too. */
  lemma DistinctTagsKept(r: seq<TagCount>, c: seq<TagCount>)
    requires multiset(r) <= multiset(c)
    requires forall i, j :: 0 <= i < j < |c| ==> c[i].tag != c[j].tag
    ensures forall i, j :: 0 <= i < j < |r| ==> r[i].tag != r[j].tag
  {
    forall i, j | 0 <= i < j < |r| ensures r[i].tag != r[j].tag {
      if r[i].tag == r[j].tag {
        assert r[i] in multiset(c) && r[j] in multiset(c);
        var p :| 0 <= p < |c| && c[p] == r[i];
        var q :| 0 <= q < |c| && c[q] == r[j];
        DistinctTagsIndex(c, p, q);
        CountedOnce(c, p);
        CountedTwice(r, i, j);
        assert false;
      }
    }
  }

  lemma DistinctTagsIndex(c: seq<TagCount>, p: int, q: int)
    requires forall i, j :: 0 <= i < j < |c| ==> c[i].tag != c[j].tag
    requires 0 <= p < |c| && 0 <= q < |c| && c[p].tag == c[q].tag
    ensures p == q
  {
  }

  /** In a list with distinct tags each entry occurs once. */
  lemma CountedOnce(c: seq<TagCount>, p: int)
    requires forall i, j :: 0 <= i < j < |c| ==> c[i].tag != c[j].tag
    requires 0 <= p < |c|
    ensures multiset(c)[c[p]] == 1
  {
    var x := c[p];
    assert c == c[..p] + [x] + c[p + 1..];
    forall m | 0 <= m < |c| && m != p ensures c[m] != x {
      if m < p { assert c[m].tag != c[p].tag; } else { assert c[p].tag != c[m].tag; }
    }
    assert x !in c[..p];
    assert x !in c[p + 1..];
  }

  lemma CountedTwice(r: seq<TagCount>, i: int, j: int)
    requires 0 <= i < j < |r| && r[i] == r[j]
    ensures multiset(r)[r[i]] >= 2
  {
    assert r == r[..j] + r[j..];
    assert r[..j][i] == r[i] && r[j..][0] == r[i];
  }

  /** `most_common(50)`: at most fifty tags, by count, ties in the counter's
      first-seen order: the entries of one count are the first ones of that
      count in `Counter(tags)`. */
  function MostCommon(tags: seq<string>): (r: seq<TagCount>)
    ensures |r| == if |Counter(tags)| < 50 then |Counter(tags)| else 50
    ensures SortedDesc(r, TagCountOf)
    ensures forall e :: e in r ==> e.count == Occurrences(tags, e.tag)
    ensures forall i, j :: 0 <= i < j < |r| ==> r[i].tag != r[j].tag
    ensures forall k :: var w := WithKey(r, TagCountOf, k);
              |w| <= |WithKey(Counter(tags), TagCountOf, k)| && w == WithKey(Counter(tags), TagCountOf, k)[..|w|]
  {
    var c := Counter(tags);
    var r := TopN(c, TagCountOf, 50);
    forall e | e in r ensures e.count == Occurrences(tags, e.tag) {
      assert e in multiset(c);
    }
    DistinctTagsKept(r, c);
    forall k ensures var w := WithKey(r, TagCountOf, k); |w| <= |WithKey(c, TagCountOf, k)| && w == WithKey(c, TagCountOf, k)[..|w|] {
      TopNStable(c, TagCountOf, 50, k);
    }
    r
  }

  /** A tag of the input that `most_common(50)` leaves out occurs no more often
      than any tag it lists. */
  lemma MostCommonDominates(tags: seq<string>, t: string, i: int)
    requires t in tags
    requires forall e :: e in MostCommon(tags) ==> e.tag != t
    requires 0 <= i < |MostCommon(tags)|
    ensures Occurrences(tags, t) <= MostCommon(tags)[i].count
  {
    var c := Counter(tags);
    var j :| 0 <= j < |c| && c[j].tag == t;
    assert c[j] in multiset(c) && c[j] !in multiset(MostCommon(tags));
    TopNDominates(c, TagCountOf, 50, c[j], i);
  }

  /** One entry of `get_previous_results`; `stamp` is the `"%Y-%m-%d %H:%M"`
      date as the number its digits spell, which orders the same way. */
  datatype PastResult = PastResult(term: string, score: int, tweetCount: nat, stamp: nat)

  function StampOf(p: PastResult): int { p.stamp }

  /** `results.sort(key=date, reverse=True)`: newest first, entries of the same
      minute in listing order. */
  function PreviousResults(rs: seq<PastResult>): (r: seq<PastResult>)
    ensures multiset(r) == multiset(rs)
    ensures SortedDesc(r, StampOf)
    ensures forall k :: WithKey(r, StampOf, k) == WithKey(rs, StampOf, k)
  {
    forall k ensures WithKey(SortDesc(rs, StampOf), StampOf, k) == WithKey(rs, StampOf, k) {
      SortDescStable(rs, StampOf, k);
    }
    SortDesc(rs, StampOf)
  }
}
