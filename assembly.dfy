/** The assembly block of `main` in src/weflow/main.py: the synthesised
    sections joined into one markdown document, the list of source links
    under it, and the decision whether and where to notify once the draft
    is pushed. */
module Assembly {
  import opened Wrappers
  import opened Strings
  import opened Articles
  import opened MarkdownImages
  import opened Synthesis

  // ---------------------------------------------------------------------
  // Sections

  /** The header recorded for a topic in `header_maps`, empty when there
      is none (an empty header is not shown either way). */
  function HeaderFor(headers: map<Json, string>, topic: Json): string {
    if topic in headers then headers[topic] else ""
  }

  /** One section: the topic as a level-two heading, the header image when
      there is one, then the report. */
  function SectionMarkdown(topic: Json, header: string, report: string): string
    requires Hashable(topic)
  {
    "## " + Display(topic) + "\n\n" + (if header != "" then Image("Header", header) + "\n\n" else "") + report
  }

  /** Every section's topic is hashable. */
  predicate TopicsHashable(segs: seq<Segment>) {
    forall k :: 0 <= k < |segs| ==> Hashable(segs[k].topic)
  }

  /** The sections in order, each with the header `header_maps` holds for
      its topic. */
  function Sections(segs: seq<Segment>, headers: map<Json, string>): (parts: seq<string>)
    requires TopicsHashable(segs)
    ensures |parts| == |segs|
  {
    if |segs| == 0 then []
    else
      var n := |segs| - 1;
      Sections(segs[..n], headers) + [SectionMarkdown(segs[n].topic, HeaderFor(headers, segs[n].topic), segs[n].report)]
  }

  /** The articles of all sections, section by section. */
  function SourceArticles(segs: seq<Segment>): seq<Article> {
    if |segs| == 0 then [] else SourceArticles(segs[..|segs| - 1]) + segs[|segs| - 1].arts
  }

  /** `sep.join(parts)`. */
  function Join(parts: seq<string>, sep: string): string {
    if |parts| == 0 then ""
    else if |parts| == 1 then parts[0]
    else parts[0] + sep + Join(parts[1..], sep)
  }

  /** The loop of `main` that renders each section and collects the source
      articles, then the join of the sections with blank lines. */
  method AssembleSections(segs: seq<Segment>, headers: map<Json, string>) returns (combined: string, sources: seq<Article>)
    requires TopicsHashable(segs)
    ensures combined == Join(Sections(segs, headers), "\n\n")
    ensures sources == SourceArticles(segs)
  {
    var parts: seq<string> := [];
    sources := [];
    var i := 0;
    while i < |segs|
      invariant 0 <= i <= |segs|
      invariant TopicsHashable(segs[..i])
      invariant parts == Sections(segs[..i], headers)
      invariant sources == SourceArticles(segs[..i])
    {
      var seg := segs[i];
      PrefixStep(segs, i);
      HashablePrefix(segs, i + 1);
      var sectionMd := "## " + Display(seg.topic) + "\n\n";
      if seg.topic in headers && headers[seg.topic] != "" {
        sectionMd := sectionMd + (Image("Header", headers[seg.topic]) + "\n\n");
      }
      sectionMd := sectionMd + seg.report;
      SectionBuilt(seg, headers, sectionMd);
      SectionsSnoc(segs[..i + 1], i, segs[..i], seg, headers);
      parts := parts + [sectionMd];
      sources := sources + seg.arts;
      i := i + 1;
    }
    assert segs[..i] == segs;
    combined := Join(parts, "\n\n");
  }

  /** The first `i + 1` elements of a list extend its first `i` by the
      element at `i`. */
  lemma PrefixStep<T>(s: seq<T>, i: nat)
    requires i < |s|
    ensures |s[..i + 1]| == i + 1 && s[..i + 1][..i] == s[..i] && s[..i + 1][i] == s[i]
  {
  }

  /** The sections and the source articles of a list whose last segment
      is `seg` and whose others are `q`. */
  lemma SectionsSnoc(p: seq<Segment>, n: nat, q: seq<Segment>, seg: Segment, headers: map<Json, string>)
    requires |p| == n + 1 && q == p[..n] && seg == p[n]
    requires TopicsHashable(p)
    ensures TopicsHashable(q) && Hashable(seg.topic)
    ensures Sections(p, headers) == Sections(q, headers) + [SectionMarkdown(seg.topic, HeaderFor(headers, seg.topic), seg.report)]
    ensures SourceArticles(p) == SourceArticles(q) + seg.arts
  {
    assert forall k :: 0 <= k < |q| ==> p[k] == q[k];
  }

  /** Every prefix of a list of segments with hashable topics has them too. */
  lemma HashablePrefix(segs: seq<Segment>, i: nat)
    requires TopicsHashable(segs) && i <= |segs|
    ensures TopicsHashable(segs[..i])
  {
  }

  /** The text the loop of `main` builds for a segment is its section. */
  lemma SectionBuilt(seg: Segment, headers: map<Json, string>, md: string)
    requires Hashable(seg.topic)
    requires md == "## " + Display(seg.topic) + "\n\n"
      + (if seg.topic in headers && headers[seg.topic] != "" then Image("Header", headers[seg.topic]) + "\n\n" else "")
      + seg.report
    ensures md == SectionMarkdown(seg.topic, HeaderFor(headers, seg.topic), seg.report)
  {
  }

  /** The section at position `k` is the one of the segment there. */
  lemma {:induction false} SectionAt(segs: seq<Segment>, headers: map<Json, string>, k: nat)
    requires TopicsHashable(segs) && k < |segs|
    ensures Sections(segs, headers)[k] == SectionMarkdown(segs[k].topic, HeaderFor(headers, segs[k].topic), segs[k].report)
    decreases |segs|
  {
    var n := |segs| - 1;
    var q := segs[..n];
    SectionsSnoc(segs, n, q, segs[n], headers);
    var last := SectionMarkdown(segs[n].topic, HeaderFor(headers, segs[n].topic), segs[n].report);
    SnocIndex(Sections(segs, headers), Sections(q, headers), last, k);
    if k < n {
      SectionAt(q, headers, k);
      assert q[k] == segs[k];
    }
  }

  /** An index into a list extended by one element. */
  lemma SnocIndex<T>(p: seq<T>, a: seq<T>, x: T, k: nat)
    requires p == a + [x] && k <= |a|
    ensures p[k] == if k < |a| then a[k] else x
  {
  }

  /** The section at each position is the one of the segment there. */
  lemma {:induction false} SectionsAt(segs: seq<Segment>, headers: map<Json, string>)
    requires TopicsHashable(segs)
    ensures forall k :: 0 <= k < |segs| ==>
      Sections(segs, headers)[k] == SectionMarkdown(segs[k].topic, HeaderFor(headers, segs[k].topic), segs[k].report)
  {
    forall k | 0 <= k < |segs|
      ensures Sections(segs, headers)[k] == SectionMarkdown(segs[k].topic, HeaderFor(headers, segs[k].topic), segs[k].report)
    {
      SectionAt(segs, headers, k);
    }
  }

  /** With the sections' topics distinct, as the synthesis loop makes them,
      each section shows its own header. */
  lemma SectionsShowOwnHeaders(segs: seq<Segment>)
    requires TopicsHashable(segs)
    requires forall k, l :: 0 <= k < l < |segs| ==> segs[k].topic != segs[l].topic
    ensures forall k :: 0 <= k < |segs| ==>
      Sections(segs, HeaderMap(segs))[k] == SectionMarkdown(segs[k].topic, segs[k].header, segs[k].report)
  {
    SectionsAt(segs, HeaderMap(segs));
    HeaderMapLookup(segs);
  }

  /** The sections the synthesis loop produces from distinct cluster
      topics have hashable, distinct topics, and each is rendered with its
      own header. */
  lemma SynthesizedSectionsOwnHeaders(topics: seq<Json>, groups: seq<seq<Article>>, data: seq<seq<ArticleData>>, svc: Services)
    requires |groups| == |topics| && |data| == |topics|
    requires forall i :: 0 <= i < |topics| ==> Hashable(topics[i])
    requires forall i, j :: 0 <= i < j < |topics| ==> topics[i] != topics[j]
    ensures var segs := SynthesizeFrom(topics, groups, data, TopicSynthesis(svc), {}).0;
      && TopicsHashable(segs)
      && forall k :: 0 <= k < |segs| ==>
        Sections(segs, HeaderMap(segs))[k] == SectionMarkdown(segs[k].topic, segs[k].header, segs[k].report)
  {
    var segs := SynthesizeFrom(topics, groups, data, TopicSynthesis(svc), {}).0;
    SegmentsFollowOrder(topics, groups, data, TopicSynthesis(svc), {});
    SegmentTopicsDistinct(topics, groups, data, TopicSynthesis(svc), {});
    assert TopicsHashable(segs);
    SectionsShowOwnHeaders(segs);
  }

  /** The heading and the blank line after it hold no image. */
  lemma HeadingPlain(topic: Json)
    requires Hashable(topic) && '!' !in Display(topic)
    ensures '!' !in "## " + Display(topic) + "\n\n"
  {
    assert '!' !in "## " && '!' !in "\n\n";
  }

  /** Read by `extract_image_urls`, a section with a header has the header
      as its first image, followed by the report's images; one without a
      header has just the report's images. The topic must not contain `!`,
      which would start a match in the heading. */
  lemma SectionImages(topic: Json, header: string, report: string)
    requires Hashable(topic) && '!' !in Display(topic)
    requires ')' !in header && '\n' !in header
    ensures header != "" ==> ImageUrls(SectionMarkdown(topic, header, report)) == [header] + ImageUrls(report)
    ensures header == "" ==> ImageUrls(SectionMarkdown(topic, header, report)) == ImageUrls(report)
  {
    var heading := "## " + Display(topic) + "\n\n";
    HeadingPlain(topic);
    if header != "" {
      var rest := "\n\n" + report;
      AppendAssoc(heading, Image("Header", header) + "\n\n", report);
      AppendAssoc(Image("Header", header), "\n\n", report);
      SkipPlainUrls(heading, Image("Header", header) + rest);
      assert ']' !in "Header" && '\n' !in "Header";
      PieceUrls("Header", header, rest);
      assert '!' !in "\n\n";
      SkipPlainUrls("\n\n", report);
    } else {
      assert heading + "" + report == heading + report;
      SkipPlainUrls(heading, report);
    }
  }

  /** The source articles are exactly the sections' articles, as many as
      the sections hold together. */
  lemma {:induction false} SourceArticlesMembers(segs: seq<Segment>)
    ensures forall a | a in SourceArticles(segs) :: exists k :: 0 <= k < |segs| && a in segs[k].arts
    ensures forall a, k | 0 <= k < |segs| && a in segs[k].arts :: a in SourceArticles(segs)
    ensures |SourceArticles(segs)| == ArticleCount(segs)
    decreases |segs|
  {
    if |segs| > 0 {
      var n := |segs| - 1;
      SourceArticlesMembers(segs[..n]);
      forall a | a in SourceArticles(segs) ensures exists k :: 0 <= k < |segs| && a in segs[k].arts {
        if a !in segs[n].arts {
          assert a in SourceArticles(segs[..n]);
          var k :| 0 <= k < |segs[..n]| && a in segs[..n][k].arts;
          assert segs[k] == segs[..n][k];
        }
      }
      forall a, k | 0 <= k < |segs| && a in segs[k].arts ensures a in SourceArticles(segs) {
        if k < n {
          assert segs[..n][k] == segs[k];
        }
      }
    }
  }

  /** The number of articles over all sections. */
  function ArticleCount(segs: seq<Segment>): nat {
    if |segs| == 0 then 0 else ArticleCount(segs[..|segs| - 1]) + |segs[|segs| - 1].arts|
  }

  /** Every part occurs in the joined text. */
  lemma {:induction false} JoinContainsParts(parts: seq<string>, sep: string)
    ensures forall k :: 0 <= k < |parts| ==> Contains(Join(parts, sep), parts[k])
    decreases |parts|
  {
    if |parts| > 1 {
      JoinContainsParts(parts[1..], sep);
      var rest := Join(parts[1..], sep);
      forall k | 0 <= k < |parts| ensures Contains(Join(parts, sep), parts[k]) {
        if k == 0 {
          ContainsMiddle("", parts[0], sep + rest);
          assert "" + parts[0] + (sep + rest) == Join(parts, sep);
        } else {
          assert parts[1..][k - 1] == parts[k];
          ContainsIffOccurs(rest, parts[k]);
          var q :| OccursAt(rest, parts[k], q);
          OccursRight(parts[0] + sep, rest, parts[k], q + |parts[0] + sep|);
          ContainsIffOccurs(Join(parts, sep), parts[k]);
        }
      }
    } else if |parts| == 1 {
      ContainsMiddle("", parts[0], "");
      assert "" + parts[0] + "" == parts[0];
    }
  }

  /** The joined text is the parts with one separator between each
      neighbouring pair. */
  lemma {:induction false} JoinLength(parts: seq<string>, sep: string)
    requires |parts| > 0
    ensures |Join(parts, sep)| == TotalLength(parts) + (|parts| - 1) * |sep|
    decreases |parts|
  {
    if |parts| > 1 {
      JoinLength(parts[1..], sep);
      TotalLengthCons(parts);
    } else {
      TotalLengthCons(parts);
    }
  }

  /** Cutting the parts anywhere between two of them cuts the joined text
      at the separator between those two. */
  lemma {:induction false} JoinSplit(parts: seq<string>, sep: string, k: nat)
    requires 0 < k < |parts|
    ensures Join(parts, sep) == Join(parts[..k], sep) + sep + Join(parts[k..], sep)
    decreases k
  {
    if k > 1 {
      var tail := parts[1..];
      JoinSplit(tail, sep, k - 1);
      assert tail[..k - 1] == parts[..k][1..];
      assert tail[k - 1..] == parts[k..];
      assert Join(parts[..k], sep) == parts[0] + sep + Join(tail[..k - 1], sep);
    } else {
      assert parts[..1] == [parts[0]];
    }
  }

  /** The summed lengths of some strings. */
  function TotalLength(parts: seq<string>): nat {
    if |parts| == 0 then 0 else TotalLength(parts[..|parts| - 1]) + |parts[|parts| - 1]|
  }

  lemma {:induction false} TotalLengthCons(parts: seq<string>)
    requires |parts| > 0
    ensures TotalLength(parts) == |parts[0]| + TotalLength(parts[1..])
    decreases |parts|
  {
    if |parts| > 1 {
      var n := |parts| - 1;
      TotalLengthCons(parts[..n]);
      assert parts[..n][1..] == parts[1..][..n - 1];
      assert parts[..n][0] == parts[0];
      assert parts[1..][n - 1] == parts[n];
    }
  }

  // ---------------------------------------------------------------------
  // Source links

  /** The opening of the source list. */
  const LinksOpen: string := "<div style='margin-top:20px; font-size:12px; " + "color:#999;'>Sources:<br>"

  /** What sits between an article's URL and its title in its link. */
  const LinkMiddle: string := "' style='color:#999; margin-right:10px; " + "text-decoration: none;'>• "

  /** The closing of the source list. */
  const LinksClose: string := "</div>"

  /** The link line of one article. */
  function SourceLink(url: string, title: string): string {
    "<a href='" + url + LinkMiddle + title + "</a><br>"
  }

  /** The link lines of a list of articles, in order. */
  function Links(arts: seq<Article>): string {
    if |arts| == 0 then "" else Links(arts[..|arts| - 1]) + SourceLink(arts[|arts| - 1].url, arts[|arts| - 1].title)
  }

  /** The source-links block of `main`. */
  method SourceLinksHtml(arts: seq<Article>) returns (html: string)
    ensures html == LinksOpen + Links(arts) + LinksClose
  {
    html := LinksOpen;
    var i := 0;
    while i < |arts|
      invariant 0 <= i <= |arts|
      invariant html == LinksOpen + Links(arts[..i])
    {
      var art := arts[i];
      PrefixStep(arts, i);
      LinksSnoc(arts[..i + 1], i, arts[..i], art);
      LinkAppended(html, art.url, art.title);
      html := html + "<a href='" + art.url + LinkMiddle + art.title + "</a><br>";
      i := i + 1;
    }
    assert arts[..i] == arts;
    html := html + LinksClose;
  }

  /** The link lines of a list whose last article is `a` and whose others
      are `q`. */
  lemma LinksSnoc(p: seq<Article>, n: nat, q: seq<Article>, a: Article)
    requires |p| == n + 1 && q == p[..n] && a == p[n]
    ensures Links(p) == Links(q) + SourceLink(a.url, a.title)
  {
  }

  /** The link lines of the first `k + 1` articles end with the link line
      of the article at `k`. */
  lemma LinksLast(arts: seq<Article>, k: nat)
    requires k < |arts|
    ensures Links(arts[..k + 1]) == Links(arts[..k]) + SourceLink(arts[k].url, arts[k].title)
  {
    PrefixStep(arts, k);
    LinksSnoc(arts[..k + 1], k, arts[..k], arts[k]);
  }

  /** Appending the pieces of a link line appends the line. */
  lemma LinkAppended(h: string, url: string, title: string)
    ensures h + "<a href='" + url + LinkMiddle + title + "</a><br>" == h + SourceLink(url, title)
  {
  }

  /** The link lines of a list are those of any split of it, one part's
      after the other's. */
  lemma {:induction false} LinksSplit(arts: seq<Article>, k: nat)
    requires k <= |arts|
    ensures Links(arts) == Links(arts[..k]) + Links(arts[k..])
    decreases |arts|
  {
    if k < |arts| {
      var n := |arts| - 1;
      LinksSplit(arts[..n], k);
      assert arts[..n][..k] == arts[..k];
      assert arts[k..][..|arts[k..]| - 1] == arts[..n][k..];
      var last := SourceLink(arts[n].url, arts[n].title);
      AppendAssoc(Links(arts[..k]), Links(arts[..n][k..]), last);
    } else {
      assert arts[..k] == arts && arts[k..] == [];
    }
  }

  /** The link lines split around each article's own link line. */
  lemma LinksAround(arts: seq<Article>, k: nat)
    requires k < |arts|
    ensures Links(arts) == Links(arts[..k]) + SourceLink(arts[k].url, arts[k].title) + Links(arts[k + 1..])
  {
    LinksSplit(arts, k + 1);
    LinksLast(arts, k);
  }

  /** Each article's link, with its URL and title, is in the source list,
      after the links of the articles before it. */
  lemma SourceLinksShowArticles(arts: seq<Article>, k: nat)
    requires k < |arts|
    ensures var html := LinksOpen + Links(arts) + LinksClose;
      OccursAt(html, SourceLink(arts[k].url, arts[k].title), |LinksOpen| + |Links(arts[..k])|)
      && Contains(html, SourceLink(arts[k].url, arts[k].title))
  {
    var before, link, after := Links(arts[..k]), SourceLink(arts[k].url, arts[k].title), Links(arts[k + 1..]);
    LinksAround(arts, k);
    var html := LinksOpen + Links(arts) + LinksClose;
    assert html == (LinksOpen + before) + link + (after + LinksClose) by {
      AppendAssoc(LinksOpen, before + link + after, LinksClose);
      AppendAssoc(LinksOpen, before + link, after);
      AppendAssoc(LinksOpen, before, link);
      AppendAssoc(LinksOpen + before + link, after, LinksClose);
    }
    assert html[|LinksOpen + before|..|LinksOpen + before| + |link|] == link;
    ContainsIffOccurs(html, link);
  }

  // ---------------------------------------------------------------------
  // Notification after the draft push

  /** The link the notification uses when the draft's own URL is not
      looked up. */
  const DefaultArticleUrl: string := "https://mp.weixin.qq.com"

  /** What happens after `push_draft` returned `res`: no notification, a
      notification with the given article URL, or the exception raised by
      the draft lookup (or by reading it), which ends the publishing block. */
  datatype Notice = Silent | Notify(articleUrl: Json) | PushFailed

  /** The notification decision of `main`. The draft is looked up only for
      a non-empty result other than "Success"; a looked-up draft that is a
      non-empty dict gives its "url" entry (None when missing); a missing
      or empty one gives the default link. */
  function NotifyDecision(res: string, getDraft: string -> Call<Json>): Notice {
    if res == "" then Silent
    else if res == "Success" then Notify(JStr(DefaultArticleUrl))
    else match getDraft(res)
      case Raised => PushFailed
      case Returned(draft) =>
        if !Truthy(draft) then Notify(JStr(DefaultArticleUrl))
        else if draft.JObject? then Notify(Get(draft.fields, "url", JNull))
        else PushFailed
  }

  /** Notification happens exactly for a non-empty push result; the draft
      lookup is consulted only for a result other than "Success", and the
      default link is used exactly when it is not consulted or finds no
      draft. */
  lemma NotifyRules(res: string, getDraft: string -> Call<Json>)
    ensures NotifyDecision(res, getDraft).Silent? <==> res == ""
    ensures res == "Success" ==> NotifyDecision(res, getDraft) == Notify(JStr(DefaultArticleUrl))
    ensures forall other: string -> Call<Json> :: (res == "" || res == "Success") ==> NotifyDecision(res, other) == NotifyDecision(res, getDraft)
    ensures res != "" && res != "Success" && getDraft(res).Returned? && !Truthy(getDraft(res).value) ==>
      NotifyDecision(res, getDraft) == Notify(JStr(DefaultArticleUrl))
    ensures res != "" && res != "Success" && getDraft(res).Returned? && getDraft(res).value.JObject? && Truthy(getDraft(res).value) ==>
      NotifyDecision(res, getDraft) == Notify(Get(getDraft(res).value.fields, "url", JNull))
    ensures NotifyDecision(res, getDraft).PushFailed? <==>
      res != "" && res != "Success" && (getDraft(res).Raised? || (Truthy(getDraft(res).value) && !getDraft(res).value.JObject?))
  {
  }
}
