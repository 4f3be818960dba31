/** The first stages of `main` in src/weflow/main.py: choosing the day's
    articles, then `crawl_article` and `analyze_article`, each run over
    the chosen articles by a worker pool. */
module Stages {
  import opened Wrappers
  import opened Sequences
  import opened Articles

  /** How many recent articles the fallback keeps. */
  const FallbackLimit: nat := 20

  /** The outcome of selection: the articles to process and whether the
      fallback chose them, or nothing to do at all. */
  datatype Selection = Selected(articles: seq<Article>, fallback: bool) | NothingFetched

  /** Whether an article was published on `day`. */
  function PublishedOnDay(day: string): Article -> bool {
    (a: Article) => a.publishedDate == Some(day)
  }

  /** The selection of `main`: the articles published yesterday, in fetch
      order; when there are none, the first twenty fetched. */
  function Select(all: seq<Article>, yesterday: string): Selection {
    var today := Filter(all, PublishedOnDay(yesterday));
    if |today| > 0 then Selected(today, false)
    else
      var recent := all[..if |all| < FallbackLimit then |all| else FallbackLimit];
      if |recent| == 0 then NothingFetched else Selected(recent, true)
  }

  /** Some article was published yesterday exactly when selection does
      not fall back, and selection ends the run exactly when nothing was
      fetched. */
  lemma SelectCases(all: seq<Article>, yesterday: string)
    ensures var r := Select(all, yesterday);
      && (r.Selected? && !r.fallback <==> exists i :: 0 <= i < |all| && all[i].publishedDate == Some(yesterday))
      && (r.NothingFetched? <==> |all| == 0)
  {
    var p := PublishedOnDay(yesterday);
    var today := Filter(all, p);
    FilterMembers(all, p);
    if |today| > 0 {
      var x := today[0];
      assert x in today;
      assert x in all && p(x);
      var i :| 0 <= i < |all| && all[i] == x;
      assert all[i].publishedDate == Some(yesterday);
    }
    if exists i :: 0 <= i < |all| && all[i].publishedDate == Some(yesterday) {
      var i :| 0 <= i < |all| && all[i].publishedDate == Some(yesterday);
      assert p(all[i]);
      assert all[i] in today;
    }
  }

  /** Without the fallback, selection keeps every article published
      yesterday, as often as it was fetched, and no other, in fetch order. */
  lemma SelectToday(all: seq<Article>, yesterday: string)
    requires Select(all, yesterday).Selected? && !Select(all, yesterday).fallback
    ensures var r := Select(all, yesterday).articles;
      && (forall a: Article :: a in r <==> a in all && a.publishedDate == Some(yesterday))
      && (forall a: Article :: multiset(r)[a] == if a.publishedDate == Some(yesterday) then multiset(all)[a] else 0)
      && Subsequence(r, all)
  {
    var p := PublishedOnDay(yesterday);
    FilterMembers(all, p);
    FilterOrder(all, p);
    FilterCount(all, p);
  }

  /** The fallback takes the first twenty articles fetched, or all of them
      when there are fewer, and happens only when none was published
      yesterday. */
  lemma SelectFallback(all: seq<Article>, yesterday: string)
    requires Select(all, yesterday).Selected? && Select(all, yesterday).fallback
    ensures Select(all, yesterday).articles == all[..if |all| < 20 then |all| else 20]
    ensures forall i :: 0 <= i < |all| ==> all[i].publishedDate != Some(yesterday)
  {
    SelectCases(all, yesterday);
  }

  // ---------------------------------------------------------------------
  // crawl_article

  /** What the crawl step fetches for a URL when it gets that far: the
      existence check and the crawl both returned, with non-empty content. */
  function Fetched(svc: Services, url: string): Option<string> {
    if svc.articleExists(url).Raised? then None
    else match svc.crawl(url)
      case Raised => None
      case Returned(c) => if c.None? || c.value == "" then None else c
  }

  /** `crawl_article` returns the article: the content was fetched and
      saving it returned. */
  predicate CrawlSucceeds(svc: Services, url: string) {
    Fetched(svc, url).Some? && svc.saveArticle(url, Fetched(svc, url).value).Returned?
  }

  /** `crawl_article`. Any exception, including one from `save_article`
      after the content was set, yields `None`. */
  method CrawlArticle(article: Article, svc: Services) returns (r: Option<Article>)
    modifies article
    ensures r == if CrawlSucceeds(svc, article.url) then Some(article) else None
    ensures Fetched(svc, article.url).Some? ==>
      article.content == Fetched(svc, article.url) && article.status == "crawled"
    ensures Fetched(svc, article.url).None? ==>
      article.content == old(article.content) && article.status == old(article.status)
    ensures article.analysis == old(article.analysis)
  {
    var existing := svc.articleExists(article.url);
    if existing.Raised? {
      return None;
    }
    var crawled := svc.crawl(article.url);
    if crawled.Raised? {
      return None;
    }
    var content := crawled.value;
    if content.None? || content.value == "" {
      return None;
    }
    article.content := content;
    article.status := "crawled";
    var saved := svc.saveArticle(article.url, content.value);
    if saved.Raised? {
      return None;
    }
    return Some(article);
  }

  /** The answer of `article_exists` never changes what the crawl step does;
      only an exception from it does. */
  lemma ExistenceIgnored(svc: Services, url: string, b: bool)
    requires svc.articleExists(url).Returned?
    ensures var svc' := svc.(articleExists := (u: string) => Returned(b));
      Fetched(svc', url) == Fetched(svc, url) && CrawlSucceeds(svc', url) == CrawlSucceeds(svc, url)
  {
  }

  // ---------------------------------------------------------------------
  // analyze_article

  /** The analysis the analyse step parses from an article's content, when
      the content is non-empty, the model returns and the text parses. */
  function Analysis(svc: Services, content: Option<string>): Option<Json> {
    if content.None? || content.value == "" then None
    else match svc.analyze(content.value)
      case Raised => None
      case Returned(text) => svc.parseJson(text)
  }

  /** `analyze_article`. */
  method AnalyzeArticle(article: Article, svc: Services) returns (r: Option<Article>)
    modifies article
    ensures r == if Analysis(svc, old(article.content)).Some? then Some(article) else None
    ensures article.analysis ==
      if Analysis(svc, old(article.content)).Some? then Analysis(svc, old(article.content)).value
      else old(article.analysis)
    ensures article.content == old(article.content) && article.status == old(article.status)
  {
    if article.content.None? || article.content.value == "" {
      return None;
    }
    var text := svc.analyze(article.content.value);
    if text.Raised? {
      return None;
    }
    var data := svc.parseJson(text.value);
    if data.None? {
      return None;
    }
    article.analysis := data.value;
    return Some(article);
  }

  // ---------------------------------------------------------------------
  // The worker-pool stages

  /** Whether the crawl step returns an article. */
  function Crawls(svc: Services): Article -> bool {
    (a: Article) => CrawlSucceeds(svc, a.url)
  }

  /** The crawl stage: `crawl_article` on each selected article, taken in
      the order the pool completes them, keeping the articles returned. */
  method CrawlStage(svc: Services, selected: seq<Article>, completion: seq<Article>) returns (crawled: seq<Article>)
    requires multiset(completion) == multiset(selected)
    modifies set a | a in selected
    ensures crawled == Filter(completion, Crawls(svc))
    ensures forall a :: a in crawled <==> a in selected && CrawlSucceeds(svc, a.url)
    ensures multiset(crawled) == multiset(Filter(selected, Crawls(svc)))
    ensures forall a :: a in selected && Fetched(svc, a.url).Some? ==>
      a.content == Fetched(svc, a.url) && a.status == "crawled"
    ensures forall a :: a in selected && Fetched(svc, a.url).None? ==>
      a.content == old(a.content) && a.status == old(a.status)
    ensures forall a :: a in selected ==> a.analysis == old(a.analysis)
  {
    SameMembers(completion, selected);
    crawled := [];
    ghost var done: set<Article> := {};
    var i := 0;
    while i < |completion|
      invariant 0 <= i <= |completion|
      invariant crawled == Filter(completion[..i], Crawls(svc))
      invariant forall k :: 0 <= k < i ==> completion[k] in done
      invariant forall a :: a in selected ==>
        CrawlOutcome(svc, a, a in done, old(a.content), old(a.status)) && a.analysis == old(a.analysis)
    {
      var a := completion[i];
      var r := CrawlArticle(a, svc);
      forall k | 0 <= k < i + 1 ensures completion[k] in done + {a} {
        if k < i {
          assert completion[k] in done;
        }
      }
      done := done + {a};
      FilterPrefixStep(completion, i, Crawls(svc));
      if r.Some? {
        crawled := crawled + [r.value];
      }
      i := i + 1;
    }
    assert completion[..i] == completion;
    FilterReordered(completion, selected, Crawls(svc));
    forall a | a in selected ensures a in done {
      var k :| 0 <= k < |completion| && completion[k] == a;
    }
  }

  /** An article's content and status once the crawl step has run on it
      (`done`) or not: the fetched content and "crawled" when the fetch
      got that far, otherwise as they were. */
  ghost predicate CrawlOutcome(svc: Services, a: Article, done: bool, content0: Option<string>, status0: string)
    reads a
  {
    if done && Fetched(svc, a.url).Some? then a.content == Fetched(svc, a.url) && a.status == "crawled"
    else a.content == content0 && a.status == status0
  }

  /** The articles whose content, as given alongside, the analyse step
      accepts, in list order. */
  function AnalyzeSurvivors(svc: Services, s: seq<Article>, contents: seq<Option<string>>): (r: seq<Article>)
    requires |contents| == |s|
    ensures forall a :: a in r ==> exists i :: 0 <= i < |s| && s[i] == a && Analysis(svc, contents[i]).Some?
    ensures forall i :: 0 <= i < |s| && Analysis(svc, contents[i]).Some? ==> s[i] in r
  {
    if |s| == 0 then []
    else
      var rest := AnalyzeSurvivors(svc, s[1..], contents[1..]);
      assert forall i :: 1 <= i < |s| ==> s[1..][i - 1] == s[i] && contents[1..][i - 1] == contents[i];
      (if Analysis(svc, contents[0]).Some? then [s[0]] else []) + rest
  }

  /** The contents of a list of articles. */
  function Contents(s: seq<Article>): (cs: seq<Option<string>>)
    reads set a | a in s
    ensures |cs| == |s| && forall i :: 0 <= i < |s| ==> cs[i] == s[i].content
  {
    if |s| == 0 then [] else [s[0].content] + Contents(s[1..])
  }

  lemma {:induction false} AnalyzeSurvivorsSnoc(svc: Services, s: seq<Article>, cs: seq<Option<string>>, i: nat)
    requires |cs| == |s| && i < |s|
    ensures AnalyzeSurvivors(svc, s[..i + 1], cs[..i + 1])
      == AnalyzeSurvivors(svc, s[..i], cs[..i]) + (if Analysis(svc, cs[i]).Some? then [s[i]] else [])
    decreases i
  {
    if i > 0 {
      var s1, cs1 := s[1..], cs[1..];
      assert s[..i + 1][1..] == s1[..i] && cs[..i + 1][1..] == cs1[..i];
      assert s[..i][1..] == s1[..i - 1] && cs[..i][1..] == cs1[..i - 1];
      AnalyzeSurvivorsCons(svc, s[..i + 1], cs[..i + 1], s1[..i], cs1[..i]);
      AnalyzeSurvivorsCons(svc, s[..i], cs[..i], s1[..i - 1], cs1[..i - 1]);
      AnalyzeSurvivorsSnoc(svc, s1, cs1, i - 1);
      ConcatAssoc(if Analysis(svc, cs[0]).Some? then [s[0]] else [],
                  AnalyzeSurvivors(svc, s1[..i - 1], cs1[..i - 1]),
                  if Analysis(svc, cs[i]).Some? then [s[i]] else []);
    }
  }

  /** The first step of the survivors of the analyse stage. */
  lemma AnalyzeSurvivorsCons(svc: Services, s: seq<Article>, cs: seq<Option<string>>, s1: seq<Article>, cs1: seq<Option<string>>)
    requires |cs| == |s| && |s| > 0 && s1 == s[1..] && cs1 == cs[1..]
    ensures AnalyzeSurvivors(svc, s, cs)
         == (if Analysis(svc, cs[0]).Some? then [s[0]] else []) + AnalyzeSurvivors(svc, s1, cs1)
  {
  }

  lemma ConcatAssoc(a: seq<Article>, b: seq<Article>, c: seq<Article>)
    ensures a + (b + c) == a + b + c
  {
  }

  /** The analyse stage: `analyze_article` on each crawled article, taken
      in the order the pool completes them, keeping the articles returned. */
  method AnalyzeStage(svc: Services, crawled: seq<Article>, completion: seq<Article>) returns (analyzed: seq<Article>)
    requires multiset(completion) == multiset(crawled)
    modifies set a | a in crawled
    ensures analyzed == AnalyzeSurvivors(svc, completion, old(Contents(completion)))
    ensures forall a :: a in analyzed <==> a in crawled && Analysis(svc, old(a.content)).Some?
    ensures forall a :: a in crawled ==>
      a.analysis == if Analysis(svc, old(a.content)).Some? then Analysis(svc, old(a.content)).value else old(a.analysis)
    ensures forall a :: a in crawled ==> a.content == old(a.content) && a.status == old(a.status)
  {
    ghost var cs := Contents(completion);
    SameMembers(completion, crawled);
    analyzed := [];
    ghost var done: set<Article> := {};
    var i := 0;
    while i < |completion|
      invariant 0 <= i <= |completion|
      invariant forall k :: 0 <= k < i ==> completion[k] in done
      invariant forall a :: a in crawled ==> a.content == old(a.content) && a.status == old(a.status)
      invariant forall a :: a in crawled ==> AnalyzeOutcome(svc, a, a in done, old(a.content), old(a.analysis))
      invariant forall k :: 0 <= k < |completion| ==> cs[k] == old(completion[k].content)
      invariant analyzed == AnalyzeSurvivors(svc, completion[..i], cs[..i])
    {
      var a := completion[i];
      var r := AnalyzeArticle(a, svc);
      forall k | 0 <= k < i + 1 ensures completion[k] in done + {a} {
        if k < i {
          assert completion[k] in done;
        }
      }
      done := done + {a};
      AnalyzeSurvivorsSnoc(svc, completion, cs, i);
      if r.Some? {
        analyzed := analyzed + [r.value];
      }
      i := i + 1;
    }
    assert completion[..i] == completion && cs[..i] == cs;
    forall a | a in crawled ensures a in done {
      var k :| 0 <= k < |completion| && completion[k] == a;
    }
  }

  /** An article's analysis once the analyse step has run on it (`done`)
      or not: the parsed analysis of its content when there is one,
      otherwise as it was. */
  ghost predicate AnalyzeOutcome(svc: Services, a: Article, done: bool, content: Option<string>, analysis0: Json)
    reads a
  {
    if done && Analysis(svc, content).Some? then a.analysis == Analysis(svc, content).value
    else a.analysis == analysis0
  }
}
