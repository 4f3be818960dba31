/** The pipeline's data: the `Article` record of src/weflow/core/models.py,
    the JSON values an analysis parses to, and the external services that
    src/weflow/main.py calls, each seen as a function whose call returns a
    value or raises. */
module Articles {
  import opened Wrappers

  /** A value `json.loads` can return; numbers are integers here. */
  datatype Json =
    | JNull
    | JBool(b: bool)
    | JNum(n: int)
    | JStr(s: string)
    | JList(items: seq<Json>)
    | JObject(fields: map<string, Json>)

  /** Python truthiness: `None`, `False`, `0` and empty strings, lists and
      dicts are false. */
  predicate Truthy(j: Json) {
    match j
    case JNull => false
    case JBool(b) => b
    case JNum(n) => n != 0
    case JStr(s) => |s| > 0
    case JList(items) => |items| > 0
    case JObject(fields) => |fields| > 0
  }

  /** `d.get(key, default)` on a dict. */
  function Get(fields: map<string, Json>, key: string, default: Json): Json {
    if key in fields then fields[key] else default
  }

  /** Values that can be dict keys: lists and dicts cannot. */
  predicate Hashable(j: Json) {
    !j.JList? && !j.JObject?
  }

  function DigitChar(d: nat): char
    requires d < 10
  {
    "0123456789"[d]
  }

  function Digits(n: nat): (s: string)
    ensures |s| > 0
    decreases n
  {
    if n < 10 then [DigitChar(n)] else Digits(n / 10) + [DigitChar(n % 10)]
  }

  /** `str(v)` of a hashable value, as an f-string renders it. */
  function Display(j: Json): string
    requires Hashable(j)
  {
    match j
    case JNull => "None"
    case JBool(b) => if b then "True" else "False"
    case JNum(n) => if n < 0 then "-" + Digits(-n) else Digits(n)
    case JStr(s) => s
  }

  /** An article. Its title, URL, publication date and feed domain are set
      when it is fetched and never change; crawling sets its content and
      status, analysing sets its analysis. */
  class Article {
    const title: string
    const url: string
    const publishedDate: Option<string>
    const sourceName: Option<string>
    var content: Option<string>
    var analysis: Json
    var status: string

    constructor (title: string, url: string, publishedDate: Option<string>, sourceName: Option<string>)
      ensures this.title == title && this.url == url
      ensures this.publishedDate == publishedDate && this.sourceName == sourceName
      ensures content == None && analysis == JNull && status == "pending"
    {
      this.title := title;
      this.url := url;
      this.publishedDate := publishedDate;
      this.sourceName := sourceName;
      content := None;
      analysis := JNull;
      status := "pending";
    }
  }

  /** What `synthesize_topic` hands the language model for one article. */
  datatype ArticleData = ArticleData(title: string, sourceName: Option<string>, content: Option<string>)

  /** An image the vision model described. */
  datatype Candidate = Candidate(url: string, description: string)

  /** The external services. Each is a function of its arguments whose call
      returns a value or raises. */
  datatype Services = Services(
    articleExists: string -> Call<bool>,
    crawl: string -> Call<Option<string>>,
    saveArticle: (string, string) -> Call<()>,
    analyze: string -> Call<string>,
    parseJson: string -> Option<Json>,
    describeImage: string -> Call<string>,
    synthesizeReport: (seq<ArticleData>, Json, seq<Candidate>) -> Call<string>,
    uploadArticleImage: string -> Call<string>,
    generateImage: string -> Call<string>)
}
