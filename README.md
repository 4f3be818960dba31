# WeFlow daily digest: a verified model of the pipeline's decision logic

WeFlow builds a daily technology digest for a WeChat official account:

1. It fetches articles from RSS feeds and keeps the ones published yesterday. When there are none, it keeps the first twenty fetched.
2. It crawls and analyses those articles with a language model.
3. It clusters the recommended articles by topic, through a fixed translation table.
4. For each cluster it synthesises a report. Image candidates come from the articles' embedded images, and one set of used images is shared by the whole run. The report's embedded images are re-uploaded, and a header image is chosen.
5. It assembles the sections and a list of source links.
6. It styles the HTML for WeChat and pushes a draft.

This project models, in Dafny, the deterministic core of that pipeline. It covers `src/weflow/main.py`:

- the selection of articles;
- `crawl_article` and `analyze_article`, and the two worker-pool stages;
- the clustering loop;
- `extract_image_urls` and `synthesize_topic`, with the synthesis loop of `main`;
- section assembly, the source links and the notification decision.

It also covers `src/weflow/core/formatter.py`:

- the tag rewrites that `markdown_to_html` applies after the markdown library;
- `format_article_section`;
- `wrap_full_article`.

Every external service is a function value held in `Articles.Services`. These are the existence check, crawl, save, analysis, JSON parsing, image description, report synthesis, image upload and image generation. Each call returns a value or raises (`Call<T>`), so every `try`/`except` in the source becomes a case split on `Raised`.

Modules:

| file | module | what it holds |
|---|---|---|
| wrappers.dfy | Wrappers | `Option`, `Call` (value or exception) |
| strings.dfy | Strings | occurrence, containment, `str.replace` and its laws |
| sequences.dfy | Sequences | list filtering, subsequences, multiset facts |
| articles.dfy | Articles | the `Article` class, JSON values and truthiness, the services |
| stages.dfy | Stages | selection, crawl and analyse steps, worker-pool stages |
| clustering.dfy | Clustering | the topic table and the clustering loop |
| markdown_images.dfy | MarkdownImages | the two markdown image patterns: URL extraction and the upload rewrite |
| synthesis.dfy | Synthesis | `synthesize_topic` (candidates, report, header) and the synthesis loop |
| assembly.dfy | Assembly | sections, join, source links, notification decision |
| formatter.dfy | Formatter | the post-processing of `markdown_to_html` |
| templates.dfy | Templates | `format_article_section`, `wrap_full_article` |

Where the code mutates state, the model is imperative:

- `crawl_article` and `analyze_article` update an `Article` object.
- The run-wide `used_images` set is a `UsedImages` object that `synthesize_topic` changes in place.
- The loops of `main` and of `synthesize_topic` are `while` loops.

Each such method is proved equal to a specification function, and the properties are lemmas about those functions. The formatter and the templates are pure and are modelled as functions.

In these places the model follows the code rather than its comments or what a reader might expect:

- The candidate loop records a URL as used before it checks the cap of five candidates (main.py:104-107). A URL reached after the cap is therefore consumed for the rest of the run without becoming a candidate. `Synthesis.ScanListsPastCap` proves that, once five candidates are held, each later article still gives up its first fresh "http" URL. `Synthesis.UsedGainsUrlPastTheCap` shows it for any six distinct http URLs that all get a non-empty description. `Synthesis.EmptyDescriptionUsed` shows that a URL whose description comes back empty is consumed too.
- The cap is five per cluster, whatever the comment at main.py:106 says.
- An exception from the first upload in the header loop (main.py:138) is not caught by the `try` at line 141. It escapes `synthesize_topic`, and the topic is dropped.
- The rewrite of embedded images (main.py:131) changes more than images. Its lazy alt group can run past the `](` of an image whose URL does not start with "http". So a plain link `[x](http://...)` later on the same line has its URL uploaded and swapped (`MarkdownImages.LinkAfterNonHttpImage`). For example, `![a](b) [x](http://y)` becomes `![a](b) [x](Z)` when the upload of `http://y` gives `Z`.
- Notification happens whenever `push_draft` returns a non-empty string (main.py:361).

## Model

| member | source | states |
|---|---|---|
| Stages.SelectCases | src/weflow/main.py:221-233 | selection does not fall back exactly when some article's date is yesterday's; it ends the run exactly when nothing was fetched |
| Stages.SelectToday | src/weflow/main.py:221-222 | without the fallback, the selection holds exactly the articles dated yesterday, each as often as fetched, in fetch order |
| Stages.SelectFallback | src/weflow/main.py:224-229 | the fallback is the first min(n, 20) articles and happens only when no article is dated yesterday |
| Stages.CrawlArticle | src/weflow/main.py:45-62 | returns the article iff the content was fetched non-empty and saving returned; sets content and status "crawled" once content is fetched (even if saving then raises), else leaves them; never touches the analysis |
| Stages.ExistenceIgnored | src/weflow/main.py:48-51 | the answer of `article_exists` never changes the crawl outcome; only an exception from it does |
| Stages.AnalyzeArticle | src/weflow/main.py:64-79 | returns the article iff the content is non-empty, the model returns and the text parses; then the analysis is the parsed value, otherwise unchanged; content and status unchanged |
| Stages.CrawlStage | src/weflow/main.py:238-244 | for any completion order of the selection, the crawled list is the completion order filtered by crawl success; as a multiset it is the selection filtered by crawl success; every selected article whose fetch got through holds the fetched content and status "crawled", every other keeps its content and status, and no analysis changes |
| Stages.AnalyzeSurvivors | src/weflow/main.py:246-252 | an article survives iff its content, as given, is accepted by the analyse step |
| Stages.AnalyzeStage | src/weflow/main.py:246-252 | the analysed list is the completion order filtered by the analyse step on the original contents; membership iff crawled and analysable; every crawled article holds the parsed analysis of its content when there is one and its old analysis otherwise; contents and statuses unchanged |
| Clustering.Translate | src/weflow/main.py:255-264 | a raw topic in the table is mapped to its Chinese name, any other is kept |
| Clustering.PlacementNeedsRecommended | src/weflow/main.py:267-277 | an article is clustered only when its analysis is a dict with a truthy `recommended`; the loop raises only on a truthy non-dict analysis or an unhashable topic |
| Clustering.TopicRules | src/weflow/main.py:271-277 | for a recommended article, a missing topic gives "其他", a known topic is translated, another hashable topic is kept, a list or dict topic raises |
| Clustering.ClusterArticles | src/weflow/main.py:266-278 | the clustering loop computes the clustering function of the articles' analyses |
| Clustering.ClusterCrashes | src/weflow/main.py:266-278 | the loop raises exactly when some article's placement raises |
| Clustering.ClusterWellFormed | src/weflow/main.py:266-278 | cluster keys are listed once each in first-placement order, exactly the dict's keys, and no cluster is empty |
| Clustering.ClusterGroups | src/weflow/main.py:266-278 | each cluster holds exactly the articles placed in its topic; a topic without placed articles has no cluster |
| Clustering.MembersNonEmpty | src/weflow/main.py:278 | a topic's cluster is non-empty iff some article is placed in it |
| Clustering.MembersInOrder | src/weflow/main.py:278 | a cluster keeps input order (it is a subsequence of the input) |
| Clustering.MembersPlaced | src/weflow/main.py:278 | every member of a cluster was placed in its topic |
| Clustering.MembersInclude | src/weflow/main.py:278 | every article placed in a topic is a member of its cluster |
| Clustering.MembersExactly | src/weflow/main.py:266-278 | with no article listed twice, each placed article is in its own topic's cluster and in no other |
| MarkdownImages.LinkShape | src/weflow/main.py:43 | a match of the image pattern is `![alt](url)` on one line with a `)`-free URL; for the rewrite's pattern the URL starts with "http" |
| MarkdownImages.ImageUrlsSingleLine | src/weflow/main.py:40-43 | every extracted URL lies on one line and has no `)` |
| MarkdownImages.ImageUrlsOfRender | src/weflow/main.py:40-43 | `extract_image_urls` yields the URL of every image of a text, left to right, when no `![` occurs outside the images |
| MarkdownImages.PieceUrls | src/weflow/main.py:43 | an image at the start is found and the scan resumes after it |
| MarkdownImages.SkipPlainUrls | src/weflow/main.py:43 | text without `!` yields no URL |
| MarkdownImages.RewriteOfRender | src/weflow/main.py:119-131 | the rewrite swaps the URL of each "http" image whose upload returns, keeping its alt text; it leaves failed uploads, non-"http" images and all other text unchanged, when no `![` occurs outside the images and the line after each non-"http" image ends before any `]` |
| MarkdownImages.LinkAfterNonHttpImage | src/weflow/main.py:119-131 | after an image whose URL does not start with "http", a plain link with an "http" URL later on the same line has its URL swapped for the uploaded one |
| MarkdownImages.RewriteKeepsUnchangedUrls | src/weflow/main.py:119-131 | when every upload raises or returns the same URL, the rewrite is the identity |
| Synthesis.ScanUrlsSpec | src/weflow/main.py:97-113 | one article's scan keeps earlier candidates, adds only fresh "http" URLs with non-empty descriptions, and adds to the used set only "http" URLs of the article |
| Synthesis.ScanListsSpec | src/weflow/main.py:89-113 | the same over all articles of a cluster |
| Synthesis.CandidateRules | src/weflow/main.py:89-113 | candidates: at most 5, "http", not used on entry, pairwise distinct, non-empty descriptions; the used set grows, gains every candidate, and gains only "http" URLs of the cluster; when the scan neither raises nor fills the cap, the used set gains exactly the cluster's "http" URLs and every fresh one with a non-empty description is a candidate |
| Synthesis.ScanListsComplete | src/weflow/main.py:96-113 | a scan that neither raises nor fills the cap marks every "http" URL of the cluster used and takes every fresh described one as a candidate, with the description returned for it |
| Synthesis.ScanPastCap | src/weflow/main.py:101-107 | with five candidates held, one article's scan asks for no description and marks just its first fresh "http" URL used |
| Synthesis.ScanListsPastCap | src/weflow/main.py:96-107 | with five candidates held, the rest of the cluster marks the first fresh "http" URL of each article used and adds no candidate |
| Synthesis.EmptyDescriptionUsed | src/weflow/main.py:104-111 | a fresh "http" URL whose description comes back empty ends up used but is no candidate |
| Synthesis.UsedGainsUrlPastTheCap | src/weflow/main.py:104-107 | for any six distinct http URLs that each get a non-empty description, five become candidates, and the sixth is recorded as used but is not among them |
| Synthesis.ScanArticleImages | src/weflow/main.py:97-113 | the inner loop computes the scan function, updating the used set in place |
| Synthesis.ScanCandidates | src/weflow/main.py:86-113 | the outer loop gathers the article data and computes the scan over all articles' image lists |
| Synthesis.DataList | src/weflow/main.py:89-94 | the data handed to the model is each article's title, source name and content, in order |
| Synthesis.ImageLists | src/weflow/main.py:96 | each article's image list is `extract_image_urls` of its content |
| Synthesis.HeaderFromSpec | src/weflow/main.py:134-147 | the header is the first candidate not passed over, uploaded; "" when every candidate is passed over; raises when the first candidate not in the report fails its upload |
| Synthesis.ChooseHeader | src/weflow/main.py:134-147 | the header loop computes the header function |
| Synthesis.GenerateHeader | src/weflow/main.py:149-157 | the fallback uploads an illustration for the topic and first title, or gives the placeholder if anything raises |
| Synthesis.SynthesizeTopic | src/weflow/main.py:81-159 | `synthesize_topic` returns, and leaves in the used set, what the synthesis function gives for the cluster's data and the used set on entry |
| Synthesis.HeaderRules | src/weflow/main.py:133-159 | a completed topic has a non-empty header unless the generated illustration's upload returned ""; a header taken from a candidate is not in the report |
| Synthesis.CandidatesDisjoint | src/weflow/main.py:100-104 | clusters synthesised one after the other never share a candidate |
| Synthesis.SynthesizeNext | src/weflow/main.py:292-298 | one pass records the section and header when synthesis returns, and leaves the used set the synthesis gives |
| Synthesis.SynthesizeAll | src/weflow/main.py:287-298 | the loop yields the sections, the header map and the used set of the synthesis-loop function on the clusters, from an empty set |
| Synthesis.SynthesisLoopStep | src/weflow/main.py:291-298 | one pass keeps the loop's accumulators in step with the whole loop's outcome |
| Synthesis.SegmentsFollowOrder | src/weflow/main.py:291-298 | the sections' topics are a subsequence of cluster order, and each section carries its own cluster's articles |
| Synthesis.UsedOnlyGrows | src/weflow/main.py:289-298 | over the whole loop the used set only grows |
| Synthesis.SegmentTopicsDistinct | src/weflow/main.py:291-298 | distinct cluster topics give sections with distinct topics |
| Synthesis.HeaderMapLookup | src/weflow/main.py:288-296 | with distinct topics, `header_maps` holds exactly the sections' topics, each with its section's header |
| Assembly.AssembleSections | src/weflow/main.py:304-315 | the loop yields the join with blank lines of the rendered sections, and the concatenation of the sections' articles |
| Assembly.SectionsAt | src/weflow/main.py:307-312 | section k is the heading, optional header image and report of segment k |
| Assembly.SectionsShowOwnHeaders | src/weflow/main.py:296-310 | with distinct topics each section shows its own header |
| Assembly.SynthesizedSectionsOwnHeaders | src/weflow/main.py:291-312 | the sections from the synthesis loop are renderable and each shows its own header |
| Assembly.SectionImages | src/weflow/main.py:308-311 | read by `extract_image_urls`, a section's first image is its header when it has one, followed by the report's images |
| Assembly.SourceArticlesMembers | src/weflow/main.py:313 | the source articles are exactly the sections' articles, as many as the sections hold |
| Assembly.JoinContainsParts | src/weflow/main.py:315 | every section occurs in the joined markdown |
| Assembly.JoinLength | src/weflow/main.py:315 | the joined markdown is as long as the sections together plus one separator for each neighbouring pair |
| Assembly.JoinSplit | src/weflow/main.py:315 | cut between any two sections, the joined markdown is the join of the sections before the cut, one separator, and the join of those after it |
| Assembly.SourceLinksHtml | src/weflow/main.py:325-328 | the loop yields the opening, each article's link line in order, and the closing |
| Assembly.LinksSplit | src/weflow/main.py:326-327 | the link lines of a list are those of its two parts, one after the other |
| Assembly.LinksAround | src/weflow/main.py:326-327 | each article's link line sits between those of the articles before and after it |
| Assembly.SourceLinksShowArticles | src/weflow/main.py:325-328 | each article's link, with its URL and title, occurs in the list right after the links of earlier articles |
| Assembly.NotifyRules | src/weflow/main.py:361-363 | notification iff the push result is non-empty; the draft is looked up only when the result is not "Success"; the default link when not looked up or no draft; PushFailed iff the lookup raises or gives a non-dict |
| Formatter.SubTagElement | src/weflow/core/formatter.py:14-40 | a single-line element whose content holds no closing tag is restyled with its content unchanged |
| Formatter.SubTagUnclosed | src/weflow/core/formatter.py:14-40 | an element whose content reaches a newline before any `<` is not matched |
| Formatter.SubTagNewlineFirst | src/weflow/core/formatter.py:14-40 | an element whose content starts with a newline is left bare |
| Formatter.SubTagAbsent | src/weflow/core/formatter.py:14-40 | where the opening tag does not occur, an element rewrite is the identity |
| Formatter.SubTagKeepsAbsent | src/weflow/core/formatter.py:14-40 | an element rewrite creates no occurrence of a tag its new tags are inert to |
| Formatter.SkipSpaceSpec | src/weflow/core/formatter.py:71 | `\s*` stops at the first non-whitespace character |
| Formatter.SkipUntilSpec | src/weflow/core/formatter.py:71 | `[^>]+` and `[^"]+` stop at the first delimiter |
| Formatter.AttrValueLeftmost | src/weflow/core/formatter.py:54-58 | the src/alt search gives the value at the leftmost match, or nothing when none matches |
| Formatter.FiguresParagraph | src/weflow/core/formatter.py:50-75 | a styled paragraph of whitespace and one image tag becomes the figure for that tag, and the rewrite resumes after it |
| Formatter.FiguresAbsent | src/weflow/core/formatter.py:70-75 | text without `<p style="` passes the figure rewrite unchanged |
| Formatter.FiguresKeepsAbsent | src/weflow/core/formatter.py:50-75 | the figure rewrite creates no bare list or rule tag |
| Formatter.PostProcessDropsTag | src/weflow/core/formatter.py:14-75 | after the rewrites, a given bare list or rule tag is not left |
| Formatter.PostProcessLeavesNoBareTags | src/weflow/core/formatter.py:35-44 | no `<ul>`, `<ol>`, `<hr />` or `<hr>` is left in the output, whatever the input |
| Formatter.ImageParagraphStyled | src/weflow/core/formatter.py:14-32 | the markdown image paragraph is styled by the `<p>` rewrite and untouched by the earlier ones |
| Formatter.StyledImageParagraphFigure | src/weflow/core/formatter.py:34-75 | the styled image paragraph passes the list, bold and rule rewrites and becomes the figure |
| Formatter.MarkdownImageParagraph | src/weflow/core/formatter.py:14-75 | `<p><img ...></p>` comes out of the post-processing as exactly the figure for that tag |
| Strings.ReplaceAllAbsent | src/weflow/core/formatter.py:35-44 | `str.replace` of a pattern that does not occur is the identity |
| Strings.ReplaceAllLeavesNone | src/weflow/core/formatter.py:35-44 | after `str.replace` with a replacement that cannot recreate the pattern, it does not occur |
| Strings.ReplaceAllKeepsAbsent | src/weflow/core/formatter.py:35-44 | `str.replace` with an inert replacement creates no new occurrence of an absent tag |
| Strings.ReplaceAllIdempotent | src/weflow/core/formatter.py:35-44 | such a `str.replace` applied twice equals applying it once |
| Templates.SectionShowsFields | src/weflow/core/formatter.py:80-93 | title, image URL and summary appear verbatim in the section, in that order; the source URL has no effect |
| Templates.PageShowsFields | src/weflow/core/formatter.py:96-111 | sections and date appear verbatim; the editor paragraph appears when the author is truthy |
| Templates.EditorOnlyForAuthor | src/weflow/core/formatter.py:96-111 | with a falsy author the "Editor: " label appears nowhere (unless the date or the sections spell it) |

## Left out

- I/O, configuration and clock: loading the environment (main.py:168-199), reading feeds (main.py:202-216), the `articles.json` dump (main.py:218) and `datetime.now()` (main.py:221). Yesterday's date string is a parameter of `Stages.Select`.
- The services are abstract function values. Their bodies, in llm.py, wechat.py, image.py, vision.py, crawler.py, rss.py, storage.py and notifier.py, are not part of this model. `save_article` is an effect that returns or raises.
- Concurrency: the two worker pools are modelled sequentially, and their completion order is a parameter. Any permutation of the input is allowed.
- Determinism of the services: each service is a function of its arguments. In particular, the second `upload_article_image` of the same URL (main.py:142) returns what the first did (main.py:138). So the `except`/`continue` at main.py:146-147 never runs in the model.
- JSON numbers are integers, and floats are not modelled. Python's key equality between `True` and `1` is not modelled either: the clustering dict keys compare as JSON values.
- The `Article` fields `summary`, `image_url` and `media_id` are not modelled, because the core never reads them.
- The markdown library (formatter.py:9) and `unify_daily_digest` are foreign code. The post-processing is modelled over a given HTML string, and the assembled markdown is modelled before unification.
- The publishing block (main.py:337-375) is left out, apart from the notification decision at lines 361-363. Left out with it are the cover image, the AI title, `push_draft` and `send_card`.
- The early returns when there are no clusters or no sections (main.py:282-284, 300-302) are not separate operations. With no clusters the synthesis loop yields no sections.
- MarkdownImages.ImageUrlsOfRender: proved for texts built from images whose alt holds no `!`, `]` or line break and whose URL holds no `!`, `]`, `)` or line break, with no `![` in the text between and after them. `MarkdownImages.ImageUrlsSingleLine` holds for every text.
- MarkdownImages.RewriteOfRender: proved under the same shape conditions, and only where the line after each non-"http" image ends before any `]`. Otherwise a following link can be swapped, as `MarkdownImages.LinkAfterNonHttpImage` shows.
- Formatter.PostProcess: idempotence of the whole post-processing is not proved. What is proved is that no bare list or rule tag survives, and that `str.replace` with such a replacement is idempotent (`Strings.ReplaceAllIdempotent`).
- Synthesis.HeaderRules: the header of a completed topic is proved non-empty only when the generated illustration's upload returned a non-empty URL. `upload_article_image` returns whatever URL the service sent, so the code does not guarantee a non-empty header.
