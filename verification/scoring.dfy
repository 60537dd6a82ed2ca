/** `calculate_relevancy_score`: the branch dispatch of `v8.py` and
    `twitter_redirect_anz.py` (empty input, stopword fault, no text, the
    degenerate-vocabulary heuristic, the similarity scores, the exception
    default) and the neutral-50 variant of `twitter_trend_analysis.py`.
    TF-IDF and cosine similarity are an oracle `sim` from the document list
    (search term first) to one similarity per tweet text, or a fault. */
module Scoring {
  import opened Text
  import opened Tracker
  import opened Tweets

  /** The vectorizer and cosine step: `None` when scikit-learn raises. */
  type Similarity = seq<string> -> Option<seq<real>>

  /** Python's `int()` on a float: truncation toward zero. */
  function Trunc(x: real): (r: int)
    ensures 0.0 <= x ==> 0 <= r && r as real <= x < r as real + 1.0
    ensures x < 0.0 ==> r <= 0 && r as real - 1.0 < x <= r as real
  {
    if x >= 0.0 then x.Floor else -((-x).Floor)
  }

  /** `int(score * 100)`. */
  function Percent(s: real): (r: int)
    ensures 0.0 <= s <= 1.0 ==> 0 <= r <= 100
  {
    Trunc(s * 100.0)
  }

  function Sum(xs: seq<real>): real {
    if xs == [] then 0.0 else xs[0] + Sum(xs[1..])
  }

  function IntSum(xs: seq<int>): int {
    if xs == [] then 0 else xs[0] + IntSum(xs[1..])
  }

  predicate InUnit(xs: seq<real>) {
    forall i :: 0 <= i < |xs| ==> 0.0 <= xs[i] <= 1.0
  }

  lemma {:induction false} SumInUnit(xs: seq<real>)
    requires InUnit(xs)
    ensures 0.0 <= Sum(xs) <= |xs| as real
  {
    if xs != [] {
      assert InUnit(xs[1..]) by {
        forall i | 0 <= i < |xs[1..]| ensures 0.0 <= xs[1..][i] <= 1.0 {
          assert xs[1..][i] == xs[i + 1];
        }
      }
      SumInUnit(xs[1..]);
    }
  }

  /** `int(sim_scores.mean() * 100) if len(sim_scores) > 0 else 0`. */
  function Trend(sims: seq<real>): int {
    if |sims| > 0 then Trunc(Sum(sims) / (|sims| as real) * 100.0) else 0
  }

  /** A mean of similarities in [0, 1] truncates to a trend in [0, 100]. */
  lemma TrendInRange(sims: seq<real>)
    requires InUnit(sims)
    ensures 0 <= Trend(sims) <= 100
  {
    if |sims| > 0 {
      SumInUnit(sims);
      var m := Sum(sims) / (|sims| as real);
      assert 0.0 <= m <= 1.0;
    }
  }

  // ---------------------------------------------------------------------------
  // The tweet texts and how scores are written back

  /** `[t.get("text", "") for t in tweets if t.get("text")]`. */
  function Texts(ts: seq<Tweet>): (r: seq<string>)
    ensures |r| <= |ts|
    ensures forall j :: 0 <= j < |r| ==> r[j] != []
    ensures r == [] <==> forall i :: 0 <= i < |ts| ==> ts[i].text == []
  {
    if ts == [] then []
    else
      var rest := Texts(ts[1..]);
      assert forall i :: 1 <= i < |ts| ==> ts[i] == ts[1..][i - 1];
      (if ts[0].text != [] then [ts[0].text] else []) + rest
  }

  /** `b` is `a` with nothing but scores changed. */
  predicate OnlyScores(a: seq<Tweet>, b: seq<Tweet>) {
    |a| == |b| && forall i :: 0 <= i < |a| ==> b[i] == a[i].(score := b[i].score)
  }

  /** `if "relevancy_score" not in tweet: tweet["relevancy_score"] = 0`, for every tweet. */
  function DefaultZero(ts: seq<Tweet>): (r: seq<Tweet>)
    ensures OnlyScores(ts, r)
    ensures forall i :: 0 <= i < |ts| ==> r[i].score == Some(ts[i].score.GetOr(0))
  {
    seq(|ts|, i requires 0 <= i < |ts| => ts[i].(score := Some(ts[i].score.GetOr(0))))
  }

  /** `tweet["relevancy_score"] = v` for every tweet. */
  function AllScored(ts: seq<Tweet>, v: int): (r: seq<Tweet>)
    ensures OnlyScores(ts, r)
    ensures forall i :: 0 <= i < |ts| ==> r[i].score == Some(v)
  {
    seq(|ts|, i requires 0 <= i < |ts| => ts[i].(score := Some(v)))
  }

  /** The write-back as the source has it: the i-th value goes to `tweets[i]`,
      the i-th tweet of the whole list, although it was computed from the i-th
      entry of the filtered `texts` list. */
  function AssignAsWritten(ts: seq<Tweet>, vals: seq<int>): (r: seq<Tweet>)
    ensures OnlyScores(ts, r)
  {
    seq(|ts|, i requires 0 <= i < |ts| => if i < |vals| then ts[i].(score := Some(vals[i])) else ts[i])
  }

  /** The write-back the scoring evidently intends: the j-th value goes to the
      tweet that contributed the j-th text. */
  function Assign(ts: seq<Tweet>, vals: seq<int>): (r: seq<Tweet>)
    ensures OnlyScores(ts, r)
  {
    if ts == [] || vals == [] then ts
    else
      var rest := if ts[0].text != [] then Assign(ts[1..], vals[1..]) else Assign(ts[1..], vals);
      [if ts[0].text != [] then ts[0].(score := Some(vals[0])) else ts[0]] + rest
  }

  /** The tweet that contributed the k-th text receives the k-th value; a tweet
      without text, or one past the values, keeps its score. */
  lemma {:induction false} AssignSpec(ts: seq<Tweet>, vals: seq<int>, i: int)
    requires 0 <= i < |ts|
    ensures var k := |Texts(ts[..i])|;
            Assign(ts, vals)[i].score ==
              if ts[i].text != [] && k < |vals| then Some(vals[k]) else ts[i].score
  {
    if vals == [] {
      assert Assign(ts, vals) == ts;
    } else if i == 0 {
      assert ts[..i] == [];
    } else {
      var vals' := if ts[0].text != [] then vals[1..] else vals;
      AssignTail(ts, vals, i);
      TextsPrefixTail(ts, i);
      AssignSpec(ts[1..], vals', i - 1);
      assert ts[1..][i - 1] == ts[i];
    }
  }

  lemma AssignTail(ts: seq<Tweet>, vals: seq<int>, i: int)
    requires 0 < i < |ts| && vals != []
    ensures Assign(ts, vals)[i] ==
              (if ts[0].text != [] then Assign(ts[1..], vals[1..]) else Assign(ts[1..], vals))[i - 1]
  {
  }

  /** The texts before position `i` are the first tweet's, if any, and those
      of the tail before `i - 1`. */
  lemma TextsPrefixTail(ts: seq<Tweet>, i: int)
    requires 0 < i <= |ts|
    ensures |Texts(ts[..i])| == (if ts[0].text != [] then 1 else 0) + |Texts(ts[1..][..i - 1])|
  {
    var pre := ts[..i];
    assert pre[0] == ts[0] && pre[1..] == ts[1..][..i - 1];
  }

  /** When every tweet has text the two write-backs agree. */
  lemma {:induction false} AssignAgree(ts: seq<Tweet>, vals: seq<int>)
    requires forall i :: 0 <= i < |ts| ==> ts[i].text != []
    ensures AssignAsWritten(ts, vals) == Assign(ts, vals)
  {
    if ts != [] && vals != [] {
      AssignAgree(ts[1..], vals[1..]);
      assert AssignAsWritten(ts, vals)[1..] == AssignAsWritten(ts[1..], vals[1..]);
    }
  }

  /** A tweet with empty text ahead of a texted one: the source gives the
      texted tweet's similarity to the empty one and leaves the texted one
      unscored. */
  lemma ScoreLandsOnBlankTweet()
    ensures var ts := [Tweet(None, "", "@a", [], None), Tweet(None, "ai", "@b", [], None)];
            AssignAsWritten(ts, [80])[0].score == Some(80) &&
            AssignAsWritten(ts, [80])[1].score == None &&
            Assign(ts, [80])[0].score == None &&
            Assign(ts, [80])[1].score == Some(80)
  {
    var ts := [Tweet(None, "", "@a", [], None), Tweet(None, "ai", "@b", [], None)];
    assert Assign(ts, [80]) == [ts[0]] + Assign(ts[1..], [80]);
  }

  // ---------------------------------------------------------------------------
  // The degenerate-vocabulary guard and its heuristic

  /** `len(set(all_docs)) <= 1` for `all_docs = [search_term] + texts`. */
  predicate OneDocument(term: string, texts: seq<string>) {
    |set d | d in [term] + texts| <= 1
  }

  /** The guard holds exactly when every text equals the search term. */
  lemma OneDocumentMeans(term: string, texts: seq<string>)
    ensures OneDocument(term, texts) <==> forall x :: x in texts ==> x == term
  {
    var docs := set d | d in [term] + texts;
    if forall x :: x in texts ==> x == term {
      assert docs == {term};
    } else {
      var x :| x in texts && x != term;
      var two := {term, x};
      assert two <= docs;
      assert docs == two + (docs - two);
      assert |two| == 2;
    }
  }

  /** Every texted tweet's text is the search term. */
  predicate AllTextsAre(ts: seq<Tweet>, term: string) {
    forall t :: t in ts && t.text != [] ==> t.text == term
  }

  lemma {:induction false} TextsAllTerm(ts: seq<Tweet>, term: string)
    ensures AllTextsAre(ts, term) <==> forall x :: x in Texts(ts) ==> x == term
  {
    if ts != [] {
      TextsAllTerm(ts[1..], term);
      var head := if ts[0].text != [] then [ts[0].text] else [];
      assert Texts(ts) == head + Texts(ts[1..]);
      assert ts == [ts[0]] + ts[1..];
      assert AllTextsAre(ts, term) <==>
               (ts[0].text != [] ==> ts[0].text == term) && AllTextsAre(ts[1..], term);
      if ts[0].text != [] {
        var rest := Texts(ts[1..]);
        assert Texts(ts) == [ts[0].text] + rest;
        if AllTextsAre(ts, term) {
          forall x | x in Texts(ts) ensures x == term {
            assert x == ts[0].text || x in rest;
          }
        } else {
          if ts[0].text == term {
            var x :| x in rest && x != term;
            assert x in Texts(ts);
          } else {
            assert ts[0].text in Texts(ts);
          }
        }
      } else {
        assert Texts(ts) == Texts(ts[1..]);
      }
    }
  }

  /** The heuristic of the degenerate branch, on stripped lower-cased strings. */
  function Heuristic(text: string, term: string): (r: int)
    ensures r == 100 || r == 75 || r == 25
    ensures r == 100 <==> Lower(Strip(text)) == Lower(Strip(term))
  {
    var a := Lower(Strip(text));
    var b := Lower(Strip(term));
    if a == b then 100 else if Contains(a, b) then 75 else 25
  }

  function Heuristics(texts: seq<string>, term: string): (r: seq<int>)
    ensures |r| == |texts|
  {
    seq(|texts|, j requires 0 <= j < |texts| => Heuristic(texts[j], term))
  }

  /** `int(mean_score_val / num_scored) if num_scored > 0 else 0`. */
  function HeuristicTrend(vals: seq<int>): int {
    if |vals| > 0 then Trunc(IntSum(vals) as real / (|vals| as real)) else 0
  }

  lemma {:induction false} IntSumConst(vals: seq<int>, v: int)
    requires forall j :: 0 <= j < |vals| ==> vals[j] == v
    ensures IntSum(vals) == v * |vals|
  {
    if vals != [] {
      assert forall j :: 0 <= j < |vals[1..]| ==> vals[1..][j] == vals[j + 1];
      IntSumConst(vals[1..], v);
    }
  }

  // ---------------------------------------------------------------------------
  // v8.py / twitter_redirect_anz.py

  /** Scored tweets, trend score and the `nlp_processing` status left behind. */
  datatype Scored = Scored(tweets: seq<Tweet>, trend: int, status: Status)

  /** `calculate_relevancy_score` of `v8.py` (and, branch for branch, of
      `twitter_redirect_anz.py`). `stopwords` is whether the NLTK stopword list
      loads; a failure there or in `sim` takes the exception handler. The
      `len(all_docs) <= 1` arm is left out: `texts` is non-empty there, so
      `all_docs` has at least two entries. */
  function Score(ts: seq<Tweet>, term: string, stopwords: bool, sim: Similarity): (r: Scored)
    ensures ts == [] ==> r == Scored([], 0, Skipped)
    ensures ts != [] ==> OnlyScores(ts, r.tweets)
  {
    if ts == [] then Scored([], 0, Skipped)
    else if !stopwords then Scored(DefaultZero(ts), 0, Failed)
    else
      var texts := Texts(ts);
      if texts == [] then Scored(DefaultZero(ts), 0, Skipped)
      else if OneDocument(term, texts) then
        var vals := Heuristics(texts, term);
        Scored(Assign(ts, vals), HeuristicTrend(vals), Partial)
      else
        match sim([term] + texts)
        case None => Scored(DefaultZero(ts), 0, Failed)
        case Some(sims) =>
          Scored(Assign(ts, seq(|sims|, j requires 0 <= j < |sims| => Percent(sims[j]))), Trend(sims), Success)
  }

  /** A failing stopword load or vectorizer: unscored tweets get 0, the trend
      is 0 and `nlp_processing` is failed. */
  lemma ScoreOnFault(ts: seq<Tweet>, term: string, stopwords: bool, sim: Similarity)
    requires ts != []
    requires !stopwords || (!AllTextsAre(ts, term) && sim([term] + Texts(ts)).None? && Texts(ts) != [])
    ensures var r := Score(ts, term, stopwords, sim);
            r.status == Failed && r.trend == 0 &&
            forall i :: 0 <= i < |ts| ==> r.tweets[i].score == Some(ts[i].score.GetOr(0))
  {
    TextsAllTerm(ts, term);
    OneDocumentMeans(term, Texts(ts));
  }

  /** No tweet has text: unscored tweets get 0, the trend is 0 and
      `nlp_processing` is skipped. */
  lemma ScoreWithoutText(ts: seq<Tweet>, term: string, sim: Similarity)
    requires ts != [] && forall i :: 0 <= i < |ts| ==> ts[i].text == []
    ensures var r := Score(ts, term, true, sim);
            r.status == Skipped && r.trend == 0 &&
            forall i :: 0 <= i < |ts| ==> r.tweets[i].score == Some(ts[i].score.GetOr(0))
  {
  }

  /** The degenerate branch fires exactly when every text equals the search
      term. */
  lemma ScorePartialIff(ts: seq<Tweet>, term: string, sim: Similarity)
    requires Texts(ts) != []
    ensures Score(ts, term, true, sim).status == Partial <==> AllTextsAre(ts, term)
  {
    TextsAllTerm(ts, term);
    OneDocumentMeans(term, Texts(ts));
  }

  /** The vectorizer yields `sims`: the tweet that contributed the k-th text
      scores `Percent(sims[k])`, a tweet without text or past the similarities
      keeps its score, the trend is the truncated mean of `sims`, and
      `nlp_processing` is a success. */
  lemma ScoreOnSimilarity(ts: seq<Tweet>, term: string, sim: Similarity, sims: seq<real>, i: int)
    requires Texts(ts) != [] && !AllTextsAre(ts, term)
    requires sim([term] + Texts(ts)) == Some(sims)
    requires 0 <= i < |ts|
    ensures var r := Score(ts, term, true, sim);
            var k := |Texts(ts[..i])|;
            r.status == Success && r.trend == Trend(sims) &&
            r.tweets[i].score == if ts[i].text != [] && k < |sims| then Some(Percent(sims[k])) else ts[i].score
  {
    TextsAllTerm(ts, term);
    OneDocumentMeans(term, Texts(ts));
    AssignSpec(ts, seq(|sims|, j requires 0 <= j < |sims| => Percent(sims[j])), i);
  }

  /** In the degenerate branch every texted tweet scores 100, so the 75 and 25
      arms never fire, and the trend is 100. */
  lemma ScoreDegenerate(ts: seq<Tweet>, term: string, sim: Similarity)
    requires Texts(ts) != [] && AllTextsAre(ts, term)
    ensures Score(ts, term, true, sim).trend == 100
    ensures forall i :: 0 <= i < |ts| ==>
              Score(ts, term, true, sim).tweets[i].score == if ts[i].text != [] then Some(100) else ts[i].score
  {
    var texts := Texts(ts);
    TextsAllTerm(ts, term);
    OneDocumentMeans(term, texts);
    var vals := Heuristics(texts, term);
    assert Score(ts, term, true, sim) == Scored(Assign(ts, vals), HeuristicTrend(vals), Partial);
    HeuristicsOnTerm(texts, term);
    AssignUniform(ts, vals, 100);
  }

  /** The heuristic branch writes back by position too: with a tweet of empty
      text ahead of one reading the term, the source's loop gives the empty
      tweet the 100 meant for the texted one and leaves that one unscored,
      while the corrected write-back scores the texted tweet. */
  lemma DegenerateLandsOnBlankTweet(sim: Similarity)
    ensures var ts := [Tweet(None, "", "@a", [], None), Tweet(None, "ai", "@b", [], None)];
            var vals := Heuristics(Texts(ts), "ai");
            AssignAsWritten(ts, vals)[0].score == Some(100) &&
            AssignAsWritten(ts, vals)[1].score == None &&
            Score(ts, "ai", true, sim).tweets[0].score == None &&
            Score(ts, "ai", true, sim).tweets[1].score == Some(100)
  {
    var ts := [Tweet(None, "", "@a", [], None), Tweet(None, "ai", "@b", [], None)];
    assert Texts(ts[1..]) == ["ai"];
    assert Texts(ts) == ["ai"];
    assert Heuristic("ai", "ai") == 100;
    ScoreDegenerate(ts, "ai", sim);
  }

  /** Texts that all equal the term score 100 each, and so 100 on average. */
  lemma HeuristicsOnTerm(texts: seq<string>, term: string)
    requires texts != [] && forall x :: x in texts ==> x == term
    ensures forall j :: 0 <= j < |texts| ==> Heuristics(texts, term)[j] == 100
    ensures HeuristicTrend(Heuristics(texts, term)) == 100
  {
    var vals := Heuristics(texts, term);
    forall j | 0 <= j < |vals| ensures vals[j] == 100 {
      assert texts[j] in texts;
    }
    HeuristicTrendConst(vals, 100);
  }

  /** The truncated mean of equal values is that value. */
  lemma HeuristicTrendConst(vals: seq<int>, v: int)
    requires vals != [] && forall j :: 0 <= j < |vals| ==> vals[j] == v
    ensures HeuristicTrend(vals) == v
  {
    IntSumConst(vals, v);
    var n := |vals| as real;
    assert IntSum(vals) as real == v as real * n;
    assert v as real * n / n == v as real;
  }

  /** Writing back one value per text, all equal to `v`, scores every texted
      tweet `v` and leaves the others alone. */
  lemma AssignUniform(ts: seq<Tweet>, vals: seq<int>, v: int)
    requires |vals| == |Texts(ts)|
    requires forall j :: 0 <= j < |vals| ==> vals[j] == v
    ensures forall i :: 0 <= i < |ts| ==>
              Assign(ts, vals)[i].score == if ts[i].text != [] then Some(v) else ts[i].score
  {
    forall i | 0 <= i < |ts|
      ensures Assign(ts, vals)[i].score == if ts[i].text != [] then Some(v) else ts[i].score
    {
      AssignSpec(ts, vals, i);
      if ts[i].text != [] {
        TextsPrefixShorter(ts, i);
      }
    }
  }

  /** Writing back values in [0, 100] over scores in [0, 100] keeps them there. */
  lemma AssignInRange(ts: seq<Tweet>, vals: seq<int>)
    requires forall j :: 0 <= j < |vals| ==> 0 <= vals[j] <= 100
    requires forall i :: 0 <= i < |ts| && ts[i].score.Some? ==> 0 <= ts[i].score.value <= 100
    ensures forall i :: 0 <= i < |ts| && Assign(ts, vals)[i].score.Some? ==> 0 <= Assign(ts, vals)[i].score.value <= 100
  {
    forall i | 0 <= i < |ts| && Assign(ts, vals)[i].score.Some?
      ensures 0 <= Assign(ts, vals)[i].score.value <= 100
    {
      AssignSpec(ts, vals, i);
    }
  }

  /** A texted tweet lies before at least one more text than its prefix holds. */
  lemma {:induction false} TextsPrefixShorter(ts: seq<Tweet>, i: int)
    requires 0 <= i < |ts| && ts[i].text != []
    ensures |Texts(ts[..i])| < |Texts(ts)|
  {
    if i > 0 {
      assert ts[..i][0] == ts[0] && ts[..i][1..] == ts[1..][..i - 1];
      TextsPrefixShorter(ts[1..], i - 1);
    }
  }

  /** With similarities in [0, 1] and prior scores in [0, 100], every score and
      the trend lie in [0, 100]. */
  lemma ScoreInRange(ts: seq<Tweet>, term: string, stopwords: bool, sim: Similarity)
    requires forall docs :: sim(docs).Some? ==> InUnit(sim(docs).value)
    requires forall i :: 0 <= i < |ts| && ts[i].score.Some? ==> 0 <= ts[i].score.value <= 100
    ensures var r := Score(ts, term, stopwords, sim);
            0 <= r.trend <= 100 &&
            forall i :: 0 <= i < |r.tweets| && r.tweets[i].score.Some? ==> 0 <= r.tweets[i].score.value <= 100
  {
    if ts != [] && stopwords && Texts(ts) != [] {
      var texts := Texts(ts);
      if OneDocument(term, texts) {
        var vals := Heuristics(texts, term);
        IntSumRange(vals);
        AssignInRange(ts, vals);
      } else if sim([term] + texts).Some? {
        var sims := sim([term] + texts).value;
        var vals := seq(|sims|, j requires 0 <= j < |sims| => Percent(sims[j]));
        TrendInRange(sims);
        AssignInRange(ts, vals);
      }
    }
  }

  /** The heuristic trend of scores in [0, 100] lies in [0, 100]. */
  lemma IntSumRange(vals: seq<int>)
    requires forall j :: 0 <= j < |vals| ==> 0 <= vals[j] <= 100
    ensures 0 <= HeuristicTrend(vals) <= 100
  {
    if |vals| > 0 {
      IntSumBounds(vals);
      var m := IntSum(vals) as real / (|vals| as real);
      assert 0.0 <= m <= 100.0;
    }
  }

  lemma {:induction false} IntSumBounds(vals: seq<int>)
    requires forall j :: 0 <= j < |vals| ==> 0 <= vals[j] <= 100
    ensures 0 <= IntSum(vals) <= 100 * |vals|
  {
    if vals != [] {
      assert forall j :: 0 <= j < |vals[1..]| ==> vals[1..][j] == vals[j + 1];
      IntSumBounds(vals[1..]);
    }
  }

  // ---------------------------------------------------------------------------
  // twitter_trend_analysis.py

  /** `calculate_relevancy_score` of `twitter_trend_analysis.py`: no tracker; a
      neutral 50 for every tweet when all documents are identical; the
      exception handler (stopwords, vectorizer, or more similarities than
      tweets, an `IndexError`) overwrites every score with 0. */
  function TaScore(ts: seq<Tweet>, term: string, stopwords: bool, sim: Similarity): (r: (seq<Tweet>, int))
    ensures ts == [] ==> r == ([], 0)
    ensures OnlyScores(ts, r.0)
  {
    if ts == [] then ([], 0)
    else if !stopwords then (AllScored(ts, 0), 0)
    else
      var texts := Texts(ts);
      if texts == [] then (ts, 0)
      else if OneDocument(term, texts) then (AllScored(ts, 50), 50)
      else
        match sim([term] + texts)
        case None => (AllScored(ts, 0), 0)
        case Some(sims) =>
          if |sims| > |ts| then (AllScored(ts, 0), 0)
          else (Assign(ts, seq(|sims|, j requires 0 <= j < |sims| => Percent(sims[j]))), Trend(sims))
  }

  /** All documents identical: every tweet scores the neutral 50, trend 50. */
  lemma TaScoreNeutral(ts: seq<Tweet>, term: string, sim: Similarity)
    requires Texts(ts) != [] && AllTextsAre(ts, term)
    ensures TaScore(ts, term, true, sim).1 == 50
    ensures forall i :: 0 <= i < |ts| ==> TaScore(ts, term, true, sim).0[i].score == Some(50)
  {
    TextsAllTerm(ts, term);
    OneDocumentMeans(term, Texts(ts));
  }

  /** On a fault every score, prior or not, is overwritten with 0. */
  lemma TaScoreOnFault(ts: seq<Tweet>, term: string, stopwords: bool, sim: Similarity)
    requires ts != []
    requires !stopwords || (!AllTextsAre(ts, term) && sim([term] + Texts(ts)).None? && Texts(ts) != [])
    ensures TaScore(ts, term, stopwords, sim).1 == 0
    ensures forall i :: 0 <= i < |ts| ==> TaScore(ts, term, stopwords, sim).0[i].score == Some(0)
  {
    TextsAllTerm(ts, term);
    OneDocumentMeans(term, Texts(ts));
  }

  /** The vectorizer yields `sims`: more similarities than tweets is an
      `IndexError`, which zeroes every score; otherwise the tweet that
      contributed the k-th text scores `Percent(sims[k])`, any other keeps its
      score, and the trend is the truncated mean of `sims`. */
  lemma TaScoreOnSimilarity(ts: seq<Tweet>, term: string, sim: Similarity, sims: seq<real>, i: int)
    requires Texts(ts) != [] && !AllTextsAre(ts, term)
    requires sim([term] + Texts(ts)) == Some(sims)
    requires 0 <= i < |ts|
    ensures var r := TaScore(ts, term, true, sim);
            var k := |Texts(ts[..i])|;
            if |sims| > |ts| then r.1 == 0 && r.0[i].score == Some(0)
            else r.1 == Trend(sims) &&
                 r.0[i].score == if ts[i].text != [] && k < |sims| then Some(Percent(sims[k])) else ts[i].score
  {
    TextsAllTerm(ts, term);
    OneDocumentMeans(term, Texts(ts));
    AssignSpec(ts, seq(|sims|, j requires 0 <= j < |sims| => Percent(sims[j])), i);
  }

  /** With no text the tweets come back exactly as given, trend 0. */
  lemma TaScoreWithoutText(ts: seq<Tweet>, term: string, sim: Similarity)
    requires forall i :: 0 <= i < |ts| ==> ts[i].text == []
    ensures TaScore(ts, term, true, sim) == (ts, 0)
  {
  }

  /** When every tweet has text and the vectorizer returns one similarity per
      text, as cosine similarity does, every tweet comes back scored, so the
      sort on `x["relevancy_score"]` finds the key. */
  lemma TaScoreCoversAll(ts: seq<Tweet>, term: string, stopwords: bool, sim: Similarity)
    requires forall i :: 0 <= i < |ts| ==> ts[i].text != []
    requires forall docs :: sim(docs).Some? ==> |sim(docs).value| == |docs| - 1
    ensures forall i :: 0 <= i < |ts| ==> TaScore(ts, term, stopwords, sim).0[i].score.Some?
  {
    if ts != [] && stopwords && !OneDocument(term, Texts(ts)) && sim([term] + Texts(ts)).Some? {
      var sims := sim([term] + Texts(ts)).value;
      var vals := seq(|sims|, j requires 0 <= j < |sims| => Percent(sims[j]));
      assert |vals| == |Texts(ts)|;
      forall i | 0 <= i < |ts| ensures Assign(ts, vals)[i].score.Some? {
        AssignSpec(ts, vals, i);
        TextsPrefixShorter(ts, i);
      }
    }
  }
}
