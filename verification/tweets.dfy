/** The tweet record the scrapers build, the browser observations an article
    yields, the per-article extraction of `v8.py` / `twitter_redirect_anz.py`
    (status-link id, fallback hash id, text chain, author, hashtags) and of
    `twitter_trend_analysis.py` (id from the article's HTML attributes), and the
    deduplication passes run on the collected list. */
module Tweets {
  import opened Text
  import opened Dedup

  /** A collected tweet. `id` is absent when the HTML carried none
      (`twitter_trend_analysis.py` only); `score` is the `relevancy_score` key,
      absent until scoring assigns it. */
  datatype Tweet = Tweet(id: Option<string>, text: string, username: string,
                         hashtags: seq<string>, score: Option<int>)

  function IdOf(t: Tweet): string { t.id.GetOr("") }

  function IdSet(ts: seq<Tweet>): set<string> { set t | t in ts :: IdOf(t) }

  // ---------------------------------------------------------------------------
  // What the browser reports about one article

  /** `get_attribute('href')` of one status link: the attribute (None when the
      link has none) or a raise. A failing link query is a fault at the head. */
  datatype Href = Attr(href: Option<string>) | AttrFault

  /** The text lookups: the divs of the first-choice XPath, those of the fallback
      XPath, or a raise. */
  datatype TextProbe = TextProbe(primary: seq<string>, fallback: seq<string>) | TextFault

  /** The author lookups: `@handle` spans, `User-Name` blocks, or a raise. */
  datatype UserProbe = UserProbe(handles: seq<string>, blocks: seq<string>) | UserFault

  /** The texts of the `/hashtag/` links, or a raise. */
  datatype TagProbe = TagLinks(texts: seq<string>) | TagFault

  /** One `article[@data-testid='tweet']` element. */
  datatype Article = Article(links: seq<Href>, text: TextProbe, user: UserProbe, tags: TagProbe)

  const StatusMarker: string := "/status/"
  const HashPrefix: string := "hash_"
  const UnknownUser: string := "unknown_user"
  const UnknownUserFault: string := "unknown_user_exception"

  // ---------------------------------------------------------------------------
  // Native id from a status link

  /** `href.split('/status/')[-1].split('?')[0]` when the href holds the marker and
      that piece is all digits. */
  function StatusId(href: string): (r: Option<string>)
    ensures r.Some? ==> IsDigits(r.value) && Contains(href, StatusMarker)
  {
    if Contains(href, StatusMarker) then
      var p := BeforeFirst(LastPiece(href, StatusMarker), '?');
      if IsDigits(p) then Some(p) else None
    else None
  }

  /** A status link `base/status/<digits>` with an optional `?query` yields its
      digits, provided `base` does not itself contain the marker (nor end in a way
      that completes one). */
  lemma StatusIdOfLink(base: string, digits: string, query: string)
    requires !Contains(base + "/status", StatusMarker)
    requires IsDigits(digits)
    requires query == [] || (query[0] == '?' && '/' !in query)
    ensures StatusId(base + StatusMarker + digits + query) == Some(digits)
  {
    var tail := digits + query;
    assert base + StatusMarker + digits + query == base + StatusMarker + tail;
    assert StatusMarker[..|StatusMarker| - 1] == "/status";
    DigitsTail(digits, query);
    NoOccurrenceWithout(tail, StatusMarker, '/');
    LastPieceAfterFirst(base, StatusMarker, tail);
    BeforeFirstAppend(digits, query, '?');
  }

  lemma DigitsTail(digits: string, query: string)
    requires IsDigits(digits)
    requires query == [] || (query[0] == '?' && '/' !in query)
    ensures '/' !in digits + query && '?' !in digits
  {
    assert forall i :: 0 <= i < |digits| ==> IsDigit(digits[i]);
    assert forall c :: c in digits + query ==> c in digits || c in query;
  }

  predicate Qualifies(l: Href) {
    l.Attr? && l.href.Some? && StatusId(l.href.value).Some?
  }

  /** The loop over status links: the first qualifying link gives the id; a raise
      before one is found leaves the id unset. */
  function NativeId(links: seq<Href>): (r: Option<string>)
    ensures r.Some? ==> IsDigits(r.value)
  {
    if links == [] then None
    else if links[0].AttrFault? then None
    else if Qualifies(links[0]) then StatusId(links[0].href.value)
    else NativeId(links[1..])
  }

  /** The first qualifying link wins, provided no link before it raised. */
  lemma {:induction false} NativeIdFirstLink(links: seq<Href>, i: int)
    requires 0 <= i < |links| && Qualifies(links[i])
    requires forall j :: 0 <= j < i ==> links[j].Attr? && !Qualifies(links[j])
    ensures NativeId(links) == StatusId(links[i].href.value)
  {
    if i > 0 {
      assert links[1..][i - 1] == links[i];
      NativeIdFirstLink(links[1..], i - 1);
    }
  }

  /** A raise at or before position `i`. */
  predicate FaultBefore(links: seq<Href>, i: int) {
    exists j :: 0 <= j < i && j < |links| && links[j].AttrFault?
  }

  /** No id is found exactly when every qualifying link comes after a raise. */
  lemma {:induction false} NativeIdAbsent(links: seq<Href>)
    ensures NativeId(links).None? <==>
              forall i :: 0 <= i < |links| && Qualifies(links[i]) ==> FaultBefore(links, i)
  {
    if links == [] {
    } else if links[0].AttrFault? {
      assert forall i :: 0 < i < |links| ==> FaultBefore(links, i);
    } else if Qualifies(links[0]) {
      assert !FaultBefore(links, 0);
    } else {
      var tl := links[1..];
      NativeIdAbsent(tl);
      assert NativeId(links) == NativeId(tl);
      forall i | 1 <= i < |links| ensures FaultBefore(links, i) <==> FaultBefore(tl, i - 1) {
        if FaultBefore(tl, i - 1) {
          var j :| 0 <= j < i - 1 && j < |tl| && tl[j].AttrFault?;
          assert links[j + 1] == tl[j];
        }
        if FaultBefore(links, i) {
          var j :| 0 <= j < i && j < |links| && links[j].AttrFault?;
          assert j != 0;
          assert tl[j - 1] == links[j];
        }
      }
      forall i | 1 <= i < |links| ensures links[i] == tl[i - 1] { }
    }
  }

  // ---------------------------------------------------------------------------
  // Fallback id, text, author, hashtags

  function Take(s: string, n: nat): (r: string)
    ensures |r| <= n && |r| <= |s| && r == s[..|r|]
    ensures |s| <= n ==> r == s
  {
    if |s| <= n then s else s[..n]
  }

  /** `f"hash_{hash(text[:50])}"`, with Python's `hash` as the parameter `h`. */
  function FallbackId(text: string, h: string -> int): string {
    HashPrefix + IntToString(h(Take(text, 50)))
  }

  /** A fallback id starts with a letter, so it never equals a native all-digit
      id: the two id spaces of `seen_tweet_ids` cannot collide. */
  lemma FallbackNeverNative(text: string, h: string -> int, href: string)
    ensures StartsWith(FallbackId(text, h), HashPrefix)
    ensures StatusId(href) != Some(FallbackId(text, h))
  {
    var f := FallbackId(text, h);
    assert f[0] == 'h';
    assert f[..|HashPrefix|] == HashPrefix;
  }

  /** The first div of the first-choice lookup, else the first of the fallback,
      else nothing (the article is skipped); a raise also skips it. */
  function TextOf(p: TextProbe): (r: Option<string>)
    ensures r.Some? <==> p.TextProbe? && (|p.primary| > 0 || |p.fallback| > 0)
    ensures r.Some? && |p.primary| > 0 ==> r.value == p.primary[0]
    ensures p.TextProbe? && |p.primary| == 0 && |p.fallback| > 0 ==> r == Some(p.fallback[0])
  {
    match p
    case TextFault => None
    case TextProbe(primary, fallback) =>
      if |primary| > 0 then Some(primary[0])
      else if |fallback| > 0 then Some(fallback[0])
      else None
  }

  /** The author: the first `@handle` span, else the first line of the first
      `User-Name` block, else the `unknown_user` sentinel; a raise gives
      `unknown_user_exception`. */
  function Username(p: UserProbe): (r: string)
    ensures p.UserFault? ==> r == UnknownUserFault
    ensures p.UserProbe? && p.handles == [] ==> '\n' !in r
  {
    match p
    case UserFault => UnknownUserFault
    case UserProbe(handles, blocks) =>
      if |handles| > 0 then handles[0]
      else if |blocks| > 0 then BeforeFirst(blocks[0], '\n')
      else UnknownUser
  }

  /** The link texts that start with `#`, in order; a raise gives none. */
  function Hashtags(p: TagProbe): (r: seq<string>)
    ensures forall i :: 0 <= i < |r| ==> StartsWith(r[i], "#")
    ensures p.TagLinks? ==> IsSubseq(r, p.texts)
    ensures p.TagLinks? ==> forall t :: t in p.texts && StartsWith(t, "#") ==> t in r
    ensures p.TagLinks? ==> forall t :: StartsWith(t, "#") ==> multiset(r)[t] == multiset(p.texts)[t]
    ensures p.TagFault? ==> r == []
  {
    match p
    case TagFault => []
    case TagLinks(texts) => HashLinks(texts)
  }

  function HashLinks(texts: seq<string>): (r: seq<string>)
    ensures forall i :: 0 <= i < |r| ==> StartsWith(r[i], "#")
    ensures IsSubseq(r, texts)
    ensures forall t :: t in texts && StartsWith(t, "#") ==> t in r
    ensures forall t :: StartsWith(t, "#") ==> multiset(r)[t] == multiset(texts)[t]
  {
    if texts == [] then []
    else
      var rest := HashLinks(texts[1..]);
      assert forall t :: t in texts ==> t == texts[0] || t in texts[1..];
      assert texts == [texts[0]] + texts[1..];
      if StartsWith(texts[0], "#") then
        assert ([texts[0]] + rest)[1..] == rest;
        [texts[0]] + rest
      else
        SubseqOfTail(rest, texts);
        rest
  }

  // ---------------------------------------------------------------------------
  // One article, one pass (v8.py, twitter_redirect_anz.py)

  /** The id the article is filed under once its text is known: the native id if
      a status link gave one, else the fallback hash of the text. */
  function IdFor(a: Article, text: string, h: string -> int): string {
    match NativeId(a.links)
    case Some(n) => n
    case None => FallbackId(text, h)
  }

  /** The body of the per-article loop. An article is skipped exactly when it has
      no text, its text is blank, or the id it would be filed under is already in
      `seen`; otherwise it becomes a tweet filed under that id. */
  function Extract(a: Article, seen: set<string>, h: string -> int): (r: Option<Tweet>)
    ensures r.Some? ==> TextOf(a.text) == Some(r.value.text)
    ensures r.Some? ==> r.value.id == Some(IdFor(a, r.value.text, h)) && r.value.score.None?
    ensures r.Some? ==> r.value.username == Username(a.user) && r.value.hashtags == Hashtags(a.tags)
    ensures r.None? <==> (TextOf(a.text).None? || IsBlank(TextOf(a.text).value)
                           || IdFor(a, TextOf(a.text).value, h) in seen)
  {
    var native := NativeId(a.links);
    if native.Some? && native.value in seen then None
    else
      match TextOf(a.text)
      case None => None
      case Some(text) =>
        StripEmpty(text);
        var id := if native.Some? then native.value else FallbackId(text, h);
        if native.None? && id in seen then None
        else if Strip(text) == [] then None
        else Some(Tweet(Some(id), text, Username(a.user), Hashtags(a.tags), None))
  }

  /** The `for article in articles` loop of one pass: the tweets it appends, in
      order. They carry ids, none of them already in `seen`, pairwise distinct, and
      non-blank texts. */
  function ExtractPass(arts: seq<Article>, seen: set<string>, h: string -> int): (r: seq<Tweet>)
    ensures |r| <= |arts|
    ensures forall i :: 0 <= i < |r| ==> r[i].id.Some? && IdOf(r[i]) !in seen && !IsBlank(r[i].text)
    ensures forall i :: 0 <= i < |r| ==> r[i].score.None?
    ensures KeysDistinct(r, IdOf)
  {
    if arts == [] then []
    else
      match Extract(arts[0], seen, h)
      case None => ExtractPass(arts[1..], seen, h)
      case Some(t) =>
        var rest := ExtractPass(arts[1..], seen + {IdOf(t)}, h);
        PrependFresh(t, rest, seen);
        [t] + rest
  }

  /** A fresh tweet in front of tweets that avoid `seen` and it keeps the pass's
      guarantees. */
  lemma PrependFresh(t: Tweet, rest: seq<Tweet>, seen: set<string>)
    requires t.id.Some? && IdOf(t) !in seen && !IsBlank(t.text) && t.score.None?
    requires forall i :: 0 <= i < |rest| ==> rest[i].id.Some? && IdOf(rest[i]) !in seen + {IdOf(t)} && !IsBlank(rest[i].text)
    requires forall i :: 0 <= i < |rest| ==> rest[i].score.None?
    requires KeysDistinct(rest, IdOf)
    ensures var r := [t] + rest;
            && (forall i :: 0 <= i < |r| ==> r[i].id.Some? && IdOf(r[i]) !in seen && !IsBlank(r[i].text))
            && (forall i :: 0 <= i < |r| ==> r[i].score.None?)
            && KeysDistinct(r, IdOf)
  {
    var r := [t] + rest;
    forall i | 0 < i < |r| ensures r[i] == rest[i - 1] { }
  }

  /** After a pass, every article that has non-blank text is accounted for: the id
      it would be filed under is either already seen or one the pass added. */
  lemma {:induction false} ExtractPassCovers(arts: seq<Article>, seen: set<string>, h: string -> int, i: int)
    requires 0 <= i < |arts|
    requires TextOf(arts[i].text).Some? && !IsBlank(TextOf(arts[i].text).value)
    ensures IdFor(arts[i], TextOf(arts[i].text).value, h) in seen + IdSet(ExtractPass(arts, seen, h))
  {
    var r := ExtractPass(arts, seen, h);
    match Extract(arts[0], seen, h)
    case None =>
      if i > 0 {
        assert arts[1..][i - 1] == arts[i];
        ExtractPassCovers(arts[1..], seen, h, i - 1);
      }
    case Some(t) =>
      var rest := ExtractPass(arts[1..], seen + {IdOf(t)}, h);
      assert r == [t] + rest;
      assert IdOf(t) in IdSet(r) by { assert r[0] == t; }
      assert IdSet(rest) <= IdSet(r) by {
        forall x | x in IdSet(rest) ensures x in IdSet(r) {
          var u :| u in rest && IdOf(u) == x;
          assert u in r;
        }
      }
      if i > 0 {
        assert arts[1..][i - 1] == arts[i];
        ExtractPassCovers(arts[1..], seen + {IdOf(t)}, h, i - 1);
      }
  }

  // ---------------------------------------------------------------------------
  // One article, one pass (twitter_trend_analysis.py)

  /** `twitter_trend_analysis.py` reads the author from `User-Name` blocks only. */
  datatype BlockProbe = UserBlocks(blocks: seq<string>) | BlockFault

  /** An article as `twitter_trend_analysis.py` sees it: its `outerHTML` (None when
      reading it raises or yields no string), the text lookups (`div[@lang]` first,
      then `tweetText`), the author blocks and the hashtag links. */
  datatype TaArticle = TaArticle(html: Option<string>, text: TextProbe, user: BlockProbe, tags: TagProbe)

  const TweetMarker: string := "data-testid=\"tweet\""

  /** `html.split(attr + '="')[1].split('"')[0]`; None when the split has no
      second piece (the IndexError the id block swallows). */
  function AttrValue(html: string, attr: string): (r: Option<string>)
    ensures r.Some? ==> '"' !in r.value
    ensures r.Some? <==> Contains(html, attr + "=\"")
  {
    match SecondPiece(html, attr + "=\"")
    case None => None
    case Some(p) => Some(BeforeFirst(p, '"'))
  }

  /** The id block: only HTML marked as a tweet is searched, and the first of
      `data-tweet-id`, `data-item-id` that occurs in it is the one read. */
  function TaId(html: Option<string>): (r: Option<string>)
    ensures r.Some? ==> html.Some? && Contains(html.value, TweetMarker)
    ensures r.Some? ==> '"' !in r.value
    ensures r.Some? <==> html.Some? && Contains(html.value, TweetMarker)
                         && if Contains(html.value, "data-tweet-id") then Contains(html.value, "data-tweet-id=\"")
                            else Contains(html.value, "data-item-id=\"")
  {
    match html
    case None => None
    case Some(s) =>
      if !Contains(s, TweetMarker) then None
      else if Contains(s, "data-tweet-id") then
        assert "data-tweet-id" + "=\"" == "data-tweet-id=\"";
        AttrValue(s, "data-tweet-id")
      else if Contains(s, "data-item-id") then
        assert "data-item-id" + "=\"" == "data-item-id=\"";
        AttrValue(s, "data-item-id")
      else
        assert "data-item-id" + "=\"" == "data-item-id=\"";
        ContainsLonger(s, "data-item-id", "=\"");
        None
  }

  /** A text without `p` holds nothing that begins with `p`. */
  lemma ContainsLonger(s: string, p: string, q: string)
    requires !Contains(s, p)
    ensures !Contains(s, p + q)
  {
    OccursLonger(s, p, q);
  }

  lemma OccursLonger(s: string, p: string, q: string)
    ensures forall i :: OccursAt(s, p + q, i) ==> OccursAt(s, p, i)
  {
    forall i | OccursAt(s, p + q, i) ensures OccursAt(s, p, i) {
      assert (p + q)[..|p|] == p;
      assert s[i..i + |p|] == s[i..i + |p + q|][..|p|];
    }
  }

  /** Tweet-marked HTML whose first `data-tweet-id="` is followed by digits and a
      closing quote yields those digits as the id. */
  lemma TaIdOfTweetId(pre: string, digits: string, post: string)
    requires IsDigits(digits)
    requires !Contains(pre + "data-tweet-id=", "data-tweet-id=\"")
    requires Contains(pre + "data-tweet-id=\"" + digits + "\"" + post, TweetMarker)
    ensures TaId(Some(pre + "data-tweet-id=\"" + digits + "\"" + post)) == Some(digits)
  {
    var html := pre + "data-tweet-id=\"" + digits + "\"" + post;
    assert html[|pre|..|pre| + 13] == "data-tweet-id";
    ContainsAt(html, "data-tweet-id", |pre|);
    TweetIdValue(pre, digits, post);
  }

  lemma TweetIdValue(pre: string, digits: string, post: string)
    requires IsDigits(digits)
    requires !Contains(pre + "data-tweet-id=", "data-tweet-id=\"")
    ensures AttrValue(pre + "data-tweet-id=\"" + digits + "\"" + post, "data-tweet-id") == Some(digits)
  {
    var sep := "data-tweet-id=\"";
    assert "data-tweet-id" + "=\"" == sep;
    var tail := digits + "\"" + post;
    var html := pre + sep + tail;
    assert html == pre + "data-tweet-id=\"" + digits + "\"" + post;
    var r := DigitsPiece(pre, sep, tail, digits);
    assert '"' !in digits by {
      assert forall i :: 0 <= i < |digits| ==> IsDigit(digits[i]);
    }
    BeforeFirstAppend(digits, r[|digits|..], '"');
  }

  /** The piece after the first `data-tweet-id="` begins with the digits and
      the quote that follow it. */
  lemma DigitsPiece(pre: string, sep: string, tail: string, digits: string) returns (r: string)
    requires sep == "data-tweet-id=\""
    requires IsDigits(digits)
    requires !Contains(pre + "data-tweet-id=", sep)
    requires |tail| > |digits| && tail[..|digits|] == digits && tail[|digits|] == '"'
    ensures SecondPiece(pre + sep + tail, sep) == Some(r)
    ensures |r| > |digits| && r == digits + r[|digits|..] && r[|digits|] == '"'
  {
    var html := pre + sep + tail;
    assert sep[..|sep| - 1] == "data-tweet-id=";
    FindAfterPrefix(pre, sep, tail);
    ContainsAt(html, sep, |pre|);
    SecondPieceSpec(html, sep);
    var a := |pre| + |sep|;
    r := SecondPiece(html, sep).value;
    assert html[a..] == tail;
    NoTweetIdAmongDigits(html, a, tail, digits);
    assert r == tail[..|r|];
  }

  /** No `data-tweet-id="` starts among the digits or on the quote after them. */
  lemma NoTweetIdAmongDigits(html: string, a: nat, tail: string, digits: string)
    requires IsDigits(digits)
    requires a + |tail| == |html| && html[a..] == tail
    requires |tail| > |digits| && tail[..|digits|] == digits && tail[|digits|] == '"'
    ensures forall k :: a <= k <= a + |digits| ==> !OccursAt(html, "data-tweet-id=\"", k)
  {
    forall k | a <= k <= a + |digits| ensures html[k] != 'd' {
      assert html[k] == tail[k - a];
      if k - a < |digits| {
        assert tail[k - a] == digits[k - a];
        assert IsDigit(digits[k - a]);
      }
    }
    OccursFirst(html, "data-tweet-id=\"");
  }

  lemma OccursFirst(s: string, p: string)
    requires p != []
    ensures forall k :: OccursAt(s, p, k) ==> s[k] == p[0]
  {
    forall k | OccursAt(s, p, k) ensures s[k] == p[0] {
      assert s[k..k + |p|][0] == s[k];
    }
  }


  /** A non-empty id is already taken when some collected tweet carries it. */
  predicate TaTaken(id: Option<string>, tweets: seq<Tweet>) {
    id.Some? && id.value != "" && exists i :: 0 <= i < |tweets| && tweets[i].id == id
  }

  function TaUsername(p: BlockProbe): (r: string)
    ensures '\n' !in r
  {
    match p
    case BlockFault => "unknown"
    case UserBlocks(blocks) => if |blocks| > 0 then BeforeFirst(blocks[0], '\n') else "unknown"
  }

  /** The per-article body of `twitter_trend_analysis.py`: skipped exactly when its
      non-empty id is already collected, it has no text, or its text is blank. */
  function TaExtract(a: TaArticle, tweets: seq<Tweet>): (r: Option<Tweet>)
    ensures r.Some? ==> TextOf(a.text) == Some(r.value.text) && r.value.id == TaId(a.html)
    ensures r.Some? ==> r.value.score.None?
    ensures r.None? <==> (TaTaken(TaId(a.html), tweets) || TextOf(a.text).None?
                           || IsBlank(TextOf(a.text).value))
  {
    var id := TaId(a.html);
    if TaTaken(id, tweets) then None
    else
      match TextOf(a.text)
      case None => None
      case Some(text) =>
        StripEmpty(text);
        if Strip(text) == [] then None
        else Some(Tweet(id, text, TaUsername(a.user), Hashtags(a.tags), None))
  }

  /** Non-empty ids are unique across the list. */
  predicate TaIdsUnique(ts: seq<Tweet>) {
    forall i, j :: 0 <= i < j < |ts| && ts[i].id.Some? && ts[i].id.value != "" ==> ts[i].id != ts[j].id
  }

  predicate AllTexted(ts: seq<Tweet>) {
    forall i :: 0 <= i < |ts| ==> !IsBlank(ts[i].text) && ts[i].score.None?
  }

  /** One pass of `twitter_trend_analysis.py` over its articles, appending to the
      collected list: the old list is kept as a prefix, and unique non-empty ids
      and non-blank texts are preserved. */
  function TaExtractPass(arts: seq<TaArticle>, tweets: seq<Tweet>): (r: seq<Tweet>)
    requires TaIdsUnique(tweets) && AllTexted(tweets)
    ensures |tweets| <= |r| <= |tweets| + |arts| && r[..|tweets|] == tweets
    ensures TaIdsUnique(r) && AllTexted(r)
  {
    if arts == [] then tweets
    else
      match TaExtract(arts[0], tweets)
      case None => TaExtractPass(arts[1..], tweets)
      case Some(t) =>
        var next := tweets + [t];
        assert TaIdsUnique(next) by {
          forall i, j | 0 <= i < j < |next| && next[i].id.Some? && next[i].id.value != ""
            ensures next[i].id != next[j].id
          {
            if j == |tweets| {
              assert !TaTaken(t.id, tweets);
              assert tweets[i].id == next[i].id;
            }
          }
        }
        var r := TaExtractPass(arts[1..], next);
        assert r[..|tweets|] == r[..|next|][..|tweets|];
        r
  }

  // ---------------------------------------------------------------------------
  // Deduplication passes

  /** The normalised text of the final pass of `v8.py` / `twitter_redirect_anz.py`. */
  function NormText(t: Tweet): string { Lower(Strip(t.text)) }

  /** The stripped text of the final pass of `twitter_trend_analysis.py`. */
  function StripText(t: Tweet): string { Strip(t.text) }

  predicate NonEmpty(k: string) { k != [] }

  /** The final text pass of `v8.py` / `twitter_redirect_anz.py`: keeps the first
      tweet for each non-empty lower-cased stripped text. The result is a
      subsequence of the input whose normalised texts are non-empty and pairwise
      distinct, and every non-empty normalised text of the input is represented. */
  function FinalDedup(ts: seq<Tweet>): (r: seq<Tweet>)
    ensures IsSubseq(r, ts)
    ensures forall i :: 0 <= i < |r| ==> NormText(r[i]) != []
    ensures KeysDistinct(r, NormText)
    ensures forall i :: 0 <= i < |ts| && NormText(ts[i]) != [] ==>
              exists j :: 0 <= j < |r| && NormText(r[j]) == NormText(ts[i])
  {
    var r := KeepFirst(ts, NormText, NonEmpty, {});
    KeepFirstSubseq(ts, NormText, NonEmpty, {});
    assert forall i :: 0 <= i < |ts| && NormText(ts[i]) != [] ==>
              exists j :: 0 <= j < |r| && NormText(r[j]) == NormText(ts[i]) by {
      forall i | 0 <= i < |ts| && NormText(ts[i]) != []
        ensures exists j :: 0 <= j < |r| && NormText(r[j]) == NormText(ts[i])
      {
        KeepFirstComplete(ts, NormText, NonEmpty, {}, i);
      }
    }
    r
  }

  /** Running the final text pass on its own output changes nothing. */
  lemma FinalDedupIdempotent(ts: seq<Tweet>)
    ensures FinalDedup(FinalDedup(ts)) == FinalDedup(ts)
  {
    KeepFirstIdempotent(ts, NormText, NonEmpty);
  }

  /** The final pass of `twitter_trend_analysis.py`: as `FinalDedup` but keyed on
      the stripped text without lower-casing, so it is case-sensitive. */
  function StripDedup(ts: seq<Tweet>): (r: seq<Tweet>)
    ensures IsSubseq(r, ts)
    ensures forall i :: 0 <= i < |r| ==> StripText(r[i]) != []
    ensures KeysDistinct(r, StripText)
    ensures forall i :: 0 <= i < |ts| && StripText(ts[i]) != [] ==>
              exists j :: 0 <= j < |r| && StripText(r[j]) == StripText(ts[i])
  {
    var r := KeepFirst(ts, StripText, NonEmpty, {});
    KeepFirstSubseq(ts, StripText, NonEmpty, {});
    assert forall i :: 0 <= i < |ts| && StripText(ts[i]) != [] ==>
              exists j :: 0 <= j < |r| && StripText(r[j]) == StripText(ts[i]) by {
      forall i | 0 <= i < |ts| && StripText(ts[i]) != []
        ensures exists j :: 0 <= j < |r| && StripText(r[j]) == StripText(ts[i])
      {
        KeepFirstComplete(ts, StripText, NonEmpty, {}, i);
      }
    }
    r
  }

  /** `remove_duplicates`: keeps the first tweet for each value of `hash(text)`.
      Distinct texts whose hashes collide lose all but the first. */
  function RemoveDuplicates(ts: seq<Tweet>, h: string -> int): (r: seq<Tweet>)
    ensures IsSubseq(r, ts)
    ensures KeysDistinct(r, (t: Tweet) => h(t.text))
    ensures forall i :: 0 <= i < |ts| ==> exists j :: 0 <= j < |r| && h(r[j].text) == h(ts[i].text)
  {
    var key := (t: Tweet) => h(t.text);
    var admit := (k: int) => true;
    var r := KeepFirst(ts, key, admit, {});
    KeepFirstSubseq(ts, key, admit, {});
    assert forall i :: 0 <= i < |ts| ==> exists j :: 0 <= j < |r| && h(r[j].text) == h(ts[i].text) by {
      forall i | 0 <= i < |ts| ensures exists j :: 0 <= j < |r| && h(r[j].text) == h(ts[i].text) {
        KeepFirstComplete(ts, key, admit, {}, i);
        var j :| 0 <= j < |r| && key(r[j]) == key(ts[i]);
      }
    }
    r
  }

  /** The tweet kept for a hash is the first one carrying it. */
  lemma RemoveDuplicatesKeepsFirst(ts: seq<Tweet>, h: string -> int, i: int)
    requires 0 <= i < |ts|
    requires forall j :: 0 <= j < i ==> h(ts[j].text) != h(ts[i].text)
    ensures ts[i] in RemoveDuplicates(ts, h)
  {
    var key := (t: Tweet) => h(t.text);
    KeepFirstKeepsFirst(ts, key, (k: int) => true, {}, i);
  }

  /** `remove_duplicates` is idempotent. */
  lemma RemoveDuplicatesIdempotent(ts: seq<Tweet>, h: string -> int)
    ensures RemoveDuplicates(RemoveDuplicates(ts, h), h) == RemoveDuplicates(ts, h)
  {
    KeepFirstIdempotent(ts, (t: Tweet) => h(t.text), (k: int) => true);
  }
}
