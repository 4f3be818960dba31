/** The two regular expressions of src/weflow/main.py that look at markdown
    images:
    - `!\[.*?\]\((.*?)\)` in `extract_image_urls`, read with `re.findall`;
    - `!\[(.*?)\]\((http.*?)\)` in the embedded-image rewrite of
      `synthesize_topic`, applied with `re.sub`.
    Both are hand-coded matchers that keep the regex semantics. The groups
    are lazy and `.` stops at a line break. The leftmost match wins, and
    it backtracks over later `](` on the same line. Scanning resumes after
    each match. */
module MarkdownImages {
  import opened Wrappers
  import opened Strings

  /** A match at the start of a text `t`. The alt text is `t[2..close]`,
      then `t[close..close + 2]` is `](`, the URL is `t[close + 2..end]`
      and `t[end]` is `)`. */
  datatype Link = Link(close: nat, end: nat)

  /** The first `)` at or after `i`, unless a line break or the end of the
      text comes first. */
  function CloseParenFrom(t: string, i: nat): (k: Option<nat>)
    decreases |t| - i
    ensures k.Some? ==> i <= k.value < |t| && t[k.value] == ')'
  {
    if i >= |t| || t[i] == '\n' then None
    else if t[i] == ')' then Some(i)
    else CloseParenFrom(t, i + 1)
  }

  /** Where the URL group, `(.*?)\)` or `(http.*?)\)`, starting at `u` ends. */
  function UrlEnd(t: string, u: nat, http: bool): (k: Option<nat>)
    ensures k.Some? ==> u <= k.value < |t| && t[k.value] == ')'
  {
    if !http then CloseParenFrom(t, u)
    else if u <= |t| && StartsWith(t[u..], "http") then CloseParenFrom(t, u + 4)
    else None
  }

  /** The lazy alt group tried with each end `j` in turn, up to the first
      line break. */
  function LinkFrom(t: string, j: nat, http: bool): (r: Option<Link>)
    decreases |t| - j
    ensures r.Some? ==> j <= r.value.close && r.value.close + 2 <= r.value.end < |t|
    ensures r.Some? ==> t[r.value.close] == ']' && t[r.value.close + 1] == '(' && t[r.value.end] == ')'
  {
    if j + 1 >= |t| || t[j] == '\n' then None
    else if t[j] == ']' && t[j + 1] == '(' && UrlEnd(t, j + 2, http).Some? then
      Some(Link(j, UrlEnd(t, j + 2, http).value))
    else LinkFrom(t, j + 1, http)
  }

  /** The match of the image pattern at the start of `t`, if any; `http`
      selects the rewrite's pattern. */
  function LinkAt(t: string, http: bool): (r: Option<Link>)
    ensures r.Some? ==> 2 <= r.value.close && r.value.close + 2 <= r.value.end < |t|
    ensures r.Some? ==> t[r.value.close] == ']' && t[r.value.close + 1] == '(' && t[r.value.end] == ')'
  {
    if StartsWith(t, "![") then LinkFrom(t, 2, http) else None
  }

  /** `re.findall` with the URL group: the URL of every match, left to right. */
  function ImageUrls(t: string): seq<string>
    decreases |t|
  {
    if |t| == 0 then []
    else match LinkAt(t, false)
      case Some(l) => [t[l.close + 2..l.end]] + ImageUrls(t[l.end + 1..])
      case None => ImageUrls(t[1..])
  }

  /** `extract_image_urls`: no URLs for absent or empty content. */
  function ExtractImageUrls(content: Option<string>): seq<string> {
    if content.None? || content.value == "" then [] else ImageUrls(content.value)
  }

  /** The markdown image `![alt](url)`. */
  function Image(alt: string, url: string): string {
    "![" + alt + "](" + url + ")"
  }

  /** `replace_image_url`: the alt text with the uploaded URL when the
      upload returns, the matched text itself when it raises. */
  function Replacement(whole: string, alt: string, url: string, upload: string -> Call<string>): string {
    match upload(url)
    case Returned(n) => Image(alt, n)
    case Raised => whole
  }

  /** `re.sub(r'!\[(.*?)\]\((http.*?)\)', replace_image_url, report_md)`. */
  function RewriteImages(t: string, upload: string -> Call<string>): string
    decreases |t|
  {
    if |t| == 0 then ""
    else match LinkAt(t, true)
      case Some(l) =>
        Replacement(t[..l.end + 1], t[2..l.close], t[l.close + 2..l.end], upload)
        + RewriteImages(t[l.end + 1..], upload)
      case None => [t[0]] + RewriteImages(t[1..], upload)
  }

  // ---------------------------------------------------------------------
  // What a match is

  lemma {:induction false} CloseParenSpec(t: string, i: nat)
    ensures CloseParenFrom(t, i).Some? ==>
      var k := CloseParenFrom(t, i).value; ')' !in t[i..k] && '\n' !in t[i..k]
    decreases |t| - i
  {
    if i < |t| && t[i] != '\n' && t[i] != ')' {
      CloseParenSpec(t, i + 1);
      if CloseParenFrom(t, i).Some? {
        var k := CloseParenFrom(t, i).value;
        assert t[i..k] == [t[i]] + t[i + 1..k];
      }
    }
  }

  /** The URL group stays on one line, holds no `)` and, for the
      rewrite's pattern, starts with "http". */
  lemma UrlEndSpec(t: string, u: nat, http: bool)
    ensures UrlEnd(t, u, http).Some? ==>
      var k := UrlEnd(t, u, http).value;
      && ')' !in t[u..k] && '\n' !in t[u..k]
      && (http ==> StartsWith(t[u..k], "http"))
  {
    if UrlEnd(t, u, http).Some? {
      var k := UrlEnd(t, u, http).value;
      if http {
        CloseParenSpec(t, u + 4);
        assert t[u..k] == t[u..u + 4] + t[u + 4..k];
        assert t[u..k][..4] == t[u..][..4];
      } else {
        CloseParenSpec(t, u);
      }
    }
  }

  /** A match found from `j` keeps its alt text on one line and ends where
      the URL group tried after its `](` ends. */
  lemma {:induction false} LinkFromEnds(t: string, j: nat, http: bool)
    ensures LinkFrom(t, j, http).Some? ==>
      var l := LinkFrom(t, j, http).value;
      UrlEnd(t, l.close + 2, http) == Some(l.end) && '\n' !in t[j..l.close]
    decreases |t| - j
  {
    if j + 1 < |t| && t[j] != '\n' && !(t[j] == ']' && t[j + 1] == '(' && UrlEnd(t, j + 2, http).Some?) {
      assert LinkFrom(t, j, http) == LinkFrom(t, j + 1, http);
      LinkFromEnds(t, j + 1, http);
      if LinkFrom(t, j, http).Some? {
        NotInCons(t, j, LinkFrom(t, j + 1, http).value.close, '\n');
      }
    }
  }

  lemma NotInCons(t: string, j: nat, k: nat, c: char)
    requires j < k <= |t| && t[j] != c && c !in t[j + 1..k]
    ensures c !in t[j..k]
  {
    assert t[j..k] == [t[j]] + t[j + 1..k];
  }

  lemma LinkFromSpec(t: string, j: nat, http: bool)
    ensures LinkFrom(t, j, http).Some? ==>
      var l := LinkFrom(t, j, http).value;
      && '\n' !in t[j..l.close]
      && ')' !in t[l.close + 2..l.end] && '\n' !in t[l.close + 2..l.end]
      && (http ==> StartsWith(t[l.close + 2..l.end], "http"))
  {
    if LinkFrom(t, j, http).Some? {
      var l := LinkFrom(t, j, http).value;
      LinkFromEnds(t, j, http);
      UrlEndSpec(t, l.close + 2, http);
    }
  }

  /** A match is `![alt](url)` with alt and URL on one line, the URL free
      of `)` and, for the rewrite's pattern, starting with "http". */
  lemma LinkShape(t: string, http: bool)
    requires LinkAt(t, http).Some?
    ensures var l := LinkAt(t, http).value;
      var alt := t[2..l.close];
      var url := t[l.close + 2..l.end];
      && t[..l.end + 1] == Image(alt, url)
      && '\n' !in alt && '\n' !in url && ')' !in url
      && (http ==> StartsWith(url, "http"))
  {
    var l := LinkAt(t, http).value;
    LinkFromSpec(t, 2, http);
    var alt := t[2..l.close];
    var url := t[l.close + 2..l.end];
    assert t[..2] == "![";
    ImageSlices(t, l.close, l.end);
  }

  /** A text starting `![` with `](` at `c` and `)` at `e` reads, up to `e`,
      as the image with the alt and URL between them. */
  lemma ImageSlices(t: string, c: nat, e: nat)
    requires 2 <= c && c + 2 <= e < |t|
    requires t[..2] == "![" && t[c] == ']' && t[c + 1] == '(' && t[e] == ')'
    ensures t[..e + 1] == Image(t[2..c], t[c + 2..e])
  {
    var alt, url := t[2..c], t[c + 2..e];
    assert t[c..c + 2] == "](" && t[e..e + 1] == ")";
    assert t[..e + 1] == t[..2] + t[2..e + 1];
    assert t[2..e + 1] == alt + t[c..e + 1];
    assert t[c..e + 1] == t[c..c + 2] + t[c + 2..e + 1];
    assert t[c + 2..e + 1] == url + t[e..e + 1];
    AppendAssoc("![" + alt, "](", url + ")");
    AppendAssoc("![" + alt + "](", url, ")");
    AppendAssoc("![", alt, "](" + (url + ")"));
  }

  /** Every URL `extract_image_urls` yields lies on one line and has no `)`. */
  lemma {:induction false} ImageUrlsSingleLine(t: string)
    ensures forall u :: u in ImageUrls(t) ==> ')' !in u && '\n' !in u
    decreases |t|
  {
    if |t| > 0 {
      match LinkAt(t, false)
      case Some(l) =>
        var url := t[l.close + 2..l.end];
        LinkFromSpec(t, 2, false);
        ImageUrlsSingleLine(t[l.end + 1..]);
        ImageUrlsAtLink(t, url, t[l.end + 1..]);
      case None =>
        ImageUrlsSingleLine(t[1..]);
    }
  }

  /** The URLs found where a match starts: its URL, then those after it. */
  lemma ImageUrlsAtLink(t: string, url: string, tail: string)
    requires |t| > 0 && LinkAt(t, false).Some?
    requires url == t[LinkAt(t, false).value.close + 2..LinkAt(t, false).value.end]
    requires tail == t[LinkAt(t, false).value.end + 1..]
    ensures ImageUrls(t) == [url] + ImageUrls(tail)
  {
  }

  // ---------------------------------------------------------------------
  // The rewrite leaves failed uploads as they were

  /** Every upload raises or hands back the URL it was given. */
  ghost predicate KeepsUrls(upload: string -> Call<string>) {
    forall u :: upload(u).Raised? || upload(u) == Returned(u)
  }

  /** Where every upload raises or hands back the same URL, the rewrite
      changes nothing: a failed upload keeps its match byte for byte. */
  lemma {:induction false} RewriteKeepsUnchangedUrls(t: string, upload: string -> Call<string>)
    requires KeepsUrls(upload)
    ensures RewriteImages(t, upload) == t
    decreases |t|
  {
    if |t| > 0 {
      var k := 1;
      if LinkAt(t, true).Some? {
        k := LinkAt(t, true).value.end + 1;
        RewriteKeepsLink(t, upload);
      } else {
        RewriteKeepsChar(t, upload);
      }
      RewriteKeepsUnchangedUrls(t[k..], upload);
      TakeDropGlue(t, k, RewriteImages(t, upload), RewriteImages(t[k..], upload));
    }
  }

  lemma TakeDropGlue(t: string, k: nat, x: string, y: string)
    requires k <= |t| && y == t[k..] && x == t[..k] + y
    ensures x == t
  {
    assert t[..k] + t[k..] == t;
  }

  /** The rewrite at a match: its replacement, then the rewrite of the rest. */
  lemma RewriteAtLink(t: string, upload: string -> Call<string>)
    requires LinkAt(t, true).Some?
    ensures var l := LinkAt(t, true).value;
      RewriteImages(t, upload)
      == Replacement(t[..l.end + 1], t[2..l.close], t[l.close + 2..l.end], upload) + RewriteImages(t[l.end + 1..], upload)
  {
  }

  /** Under such uploads, the rewrite keeps a match as it is. */
  lemma RewriteKeepsLink(t: string, upload: string -> Call<string>)
    requires LinkAt(t, true).Some? && KeepsUrls(upload)
    ensures var k := LinkAt(t, true).value.end + 1;
      RewriteImages(t, upload) == t[..k] + RewriteImages(t[k..], upload)
  {
    RewriteAtLink(t, upload);
    ReplacementKeeps(t, upload);
  }

  lemma ReplacementKeeps(t: string, upload: string -> Call<string>)
    requires LinkAt(t, true).Some? && KeepsUrls(upload)
    ensures var l := LinkAt(t, true).value;
      Replacement(t[..l.end + 1], t[2..l.close], t[l.close + 2..l.end], upload) == t[..l.end + 1]
  {
    LinkShape(t, true);
  }

  /** Where no match starts, the rewrite keeps the first character. */
  lemma RewriteKeepsChar(t: string, upload: string -> Call<string>)
    requires |t| > 0 && LinkAt(t, true).None?
    ensures RewriteImages(t, upload) == t[..1] + RewriteImages(t[1..], upload)
  {
    assert t[..1] == [t[0]];
  }

  // ---------------------------------------------------------------------
  // Texts built from image references

  /** A markdown image preceded by the text `lead`. */
  datatype ImageRef = ImageRef(lead: string, alt: string, url: string)

  function Piece(r: ImageRef): string {
    r.lead + Image(r.alt, r.url)
  }

  /** The text holding the given image references in order. */
  function Render(refs: seq<ImageRef>): string {
    if |refs| == 0 then "" else Piece(refs[0]) + Render(refs[1..])
  }

  /** No `![` inside `x`. */
  predicate NoOpen(x: string) {
    forall i, j :: 0 <= i < |x| && 0 <= j < |x| && j == i + 1 ==> !(x[i] == '!' && x[j] == '[')
  }

  /** A lead without `![`, an alt without `!` or `]`, a URL without `!`,
      `]` or `)`, and no line break inside the image. */
  predicate Plain(r: ImageRef) {
    && NoOpen(r.lead)
    && '!' !in r.alt && ']' !in r.alt && '\n' !in r.alt
    && '!' !in r.url && ']' !in r.url && ')' !in r.url && '\n' !in r.url
  }

  function Urls(refs: seq<ImageRef>): (urls: seq<string>)
    ensures |urls| == |refs| && forall i :: 0 <= i < |refs| ==> urls[i] == refs[i].url
  {
    if |refs| == 0 then [] else [refs[0].url] + Urls(refs[1..])
  }

  /** The references after the rewrite: an "http" URL whose upload returns
      is swapped for the uploaded one; every other reference is kept. */
  function Uploaded(refs: seq<ImageRef>, upload: string -> Call<string>): (out: seq<ImageRef>)
    ensures |out| == |refs|
  {
    if |refs| == 0 then []
    else
      var r := refs[0];
      var r' := if StartsWith(r.url, "http") && upload(r.url).Returned? then r.(url := upload(r.url).value) else r;
      [r'] + Uploaded(refs[1..], upload)
  }

  lemma {:induction false} CloseParenSkips(t: string, i: nat, m: nat)
    requires i <= m <= |t| && ')' !in t[i..m] && '\n' !in t[i..m]
    ensures CloseParenFrom(t, i) == CloseParenFrom(t, m)
    decreases m - i
  {
    if i < m {
      assert t[i] == t[i..m][0];
      assert t[i + 1..m] == t[i..m][1..];
      CloseParenSkips(t, i + 1, m);
    }
  }

  lemma {:induction false} LinkFromSkips(t: string, j: nat, m: nat, http: bool)
    requires j <= m <= |t| && ']' !in t[j..m] && '\n' !in t[j..m]
    ensures LinkFrom(t, j, http) == LinkFrom(t, m, http)
    decreases m - j
  {
    if j < m {
      assert t[j] == t[j..m][0];
      assert t[j + 1..m] == t[j..m][1..];
      LinkFromSkips(t, j + 1, m, http);
    }
  }

  /** A URL at `u` closed by `)` at `e`, with no `)` or line break in it,
      ends where that `)` is. */
  lemma UrlEndAt(t: string, u: nat, e: nat, url: string, http: bool)
    requires u <= e < |t| && t[u..e] == url && t[e] == ')'
    requires ')' !in url && '\n' !in url && (http ==> StartsWith(url, "http"))
    ensures UrlEnd(t, u, http) == Some(e)
  {
    if http {
      assert t[u..][..4] == url[..4];
      assert t[u + 4..e] == url[4..];
      CloseParenSkips(t, u + 4, e);
    } else {
      CloseParenSkips(t, u, e);
    }
  }

  /** An image at the start of a text is matched as a whole. */
  lemma PieceLink(alt: string, url: string, rest: string, http: bool, t: string)
    requires ']' !in alt && '\n' !in alt && ')' !in url && '\n' !in url
    requires http ==> StartsWith(url, "http")
    requires t == Image(alt, url) + rest
    ensures LinkAt(t, http) == Some(Link(2 + |alt|, 4 + |alt| + |url|))
  {
    var c := 2 + |alt|;
    var e := 4 + |alt| + |url|;
    PieceSlices(alt, url, rest, t);
    LinkFromSkips(t, 2, c, http);
    assert t[c + 2..e] == (url + ")" + rest)[..|url|];
    UrlEndAt(t, c + 2, e, url, http);
  }

  /** A matched image's parts, read back from the text. */
  lemma PieceParts(alt: string, url: string, rest: string)
    ensures var t := Image(alt, url) + rest;
      var e := 4 + |alt| + |url|;
      && t[..e + 1] == Image(alt, url) && t[2..2 + |alt|] == alt
      && t[2 + |alt| + 2..e] == url && t[e + 1..] == rest
  {
  }

  /** A URL that does not start with "http" does not start with it once
      `)` and more text follow. */
  lemma NotHttpThen(url: string, rest: string)
    requires !StartsWith(url, "http") && ')' !in url
    ensures !StartsWith(url + ")" + rest, "http")
  {
    var s := url + ")" + rest;
    if |url| >= 4 {
      assert s[..4] == url[..4];
    } else {
      assert s[|url|] == ')';
    }
  }

  /** The rest of the line after a text ends without a `]`. */
  ghost predicate LineEndsPlain(rest: string) {
    rest == "" || exists q :: 0 <= q < |rest| && rest[q] == '\n' && ']' !in rest[..q]
  }

  /** No `]` before a line break or the end: the alt group finds no end. */
  lemma {:induction false} LinkFromNone(t: string, j: nat, m: nat, http: bool)
    requires j <= m <= |t| && ']' !in t[j..m] && (m == |t| || t[m] == '\n')
    ensures LinkFrom(t, j, http) == None
    decreases m - j
  {
    if j < m {
      assert t[j] == t[j..m][0];
      assert t[j + 1..m] == t[j..m][1..];
      LinkFromNone(t, j + 1, m, http);
    }
  }

  /** The rewrite's pattern does not match where the alt group's first `](`
      is followed by no "http" and the line holds no later `]`. */
  lemma NoHttpLinkAt(t: string, c: nat, m: nat)
    requires StartsWith(t, "![") && 2 <= c && c + 1 < |t| && c + 1 <= m <= |t|
    requires ']' !in t[2..c] && '\n' !in t[2..c]
    requires t[c] == ']' && t[c + 1] == '(' && !StartsWith(t[c + 2..], "http")
    requires ']' !in t[c + 1..m] && (m == |t| || t[m] == '\n')
    ensures LinkAt(t, true) == None
  {
    LinkFromSkips(t, 2, c, true);
    assert LinkFrom(t, c, true) == LinkFrom(t, c + 1, true);
    LinkFromNone(t, c + 1, m, true);
  }

  /** An image whose URL does not start with "http", followed by a line
      end without `]`, is not matched by the rewrite's pattern. */
  lemma PieceNoHttpLink(alt: string, url: string, rest: string)
    requires ']' !in alt && '\n' !in alt && ']' !in url && ')' !in url && '\n' !in url
    requires !StartsWith(url, "http") && LineEndsPlain(rest)
    ensures LinkAt(Image(alt, url) + rest, true) == None
  {
    PieceSlices(alt, url, rest, Image(alt, url) + rest);
    NotHttpThen(url, rest);
    NoHttpPieceAt(Image(alt, url) + rest, alt, url, rest);
  }

  lemma NoHttpPieceAt(t: string, alt: string, url: string, rest: string)
    requires ']' !in alt && '\n' !in alt && ']' !in url && LineEndsPlain(rest)
    requires !StartsWith(url + ")" + rest, "http")
    requires var c := 2 + |alt|; var e := 4 + |alt| + |url|;
      && |t| == e + 1 + |rest| && t[..2] == "![" && t[2..c] == alt && t[c] == ']' && t[c + 1] == '('
      && t[c + 2..] == url + ")" + rest && t[c + 1..e + 1] == "(" + url + ")" && t[e + 1..] == rest
    ensures LinkAt(t, true) == None
  {
    var c := 2 + |alt|;
    var e := 4 + |alt| + |url|;
    NotInThree("(", url, ")", ']');
    var m := LineEndIn(t, e + 1, rest);
    NotInSplit(t, c + 1, e + 1, m, ']');
    NoHttpLinkAt(t, c, m);
  }

  /** Where the line of a suffix that ends plainly ends in the whole text. */
  lemma LineEndIn(t: string, k: nat, rest: string) returns (m: nat)
    requires k <= |t| && t[k..] == rest && LineEndsPlain(rest)
    ensures k <= m <= |t| && ']' !in t[k..m] && (m == |t| || t[m] == '\n')
  {
    if rest == "" {
      m := |t|;
    } else {
      var q :| 0 <= q < |rest| && rest[q] == '\n' && ']' !in rest[..q];
      SliceOfSuffix(t, k, rest, q);
      m := k + q;
    }
  }

  /** The pieces of an image followed by more text, read back from the text. */
  lemma PieceSlices(alt: string, url: string, rest: string, t: string)
    requires t == Image(alt, url) + rest
    ensures var c := 2 + |alt|;
      var e := 4 + |alt| + |url|;
      && |t| == e + 1 + |rest| && t[..2] == "![" && t[2..c] == alt && t[c] == ']' && t[c + 1] == '('
      && t[c + 2..] == url + ")" + rest && t[c + 1..e + 1] == "(" + url + ")" && t[e + 1..] == rest
  {
    var c := 2 + |alt|;
    assert t[..2] == "![" && t[2..c] == alt;
    assert t[c + 2..] == url + ")" + rest;
  }

  /** A slice of a suffix `r` of `t`, read in `t`. */
  lemma SliceOfSuffix(t: string, k: nat, r: string, q: nat)
    requires k <= |t| && t[k..] == r && q < |r|
    ensures k + q < |t| && t[k..k + q] == r[..q] && t[k + q] == r[q]
  {
    assert t[k..k + q] == t[k..][..q];
  }

  /** A character absent from two adjacent slices is absent from both together. */
  lemma NotInSplit(t: string, a: nat, b: nat, m: nat, ch: char)
    requires a <= b <= m <= |t| && ch !in t[a..b] && ch !in t[b..m]
    ensures ch !in t[a..m]
  {
    assert t[a..m] == t[a..b] + t[b..m];
  }

  /** A text that does not start with `![` starts no match. */
  lemma NoLinkWithoutOpen(t: string, http: bool)
    requires |t| > 0 && !(|t| >= 2 && t[0] == '!' && t[1] == '[')
    ensures LinkAt(t, http) == None
  {
    if |t| >= 2 {
      assert t[..2][0] == t[0] && t[..2][1] == t[1];
    }
  }

  /** `x` followed by `rest` has no `![` that starts inside `x`. */
  predicate OpensNothing(x: string, rest: string) {
    NoOpen(x) && (|x| == 0 || |rest| == 0 || x[|x| - 1] != '!' || rest[0] != '[')
  }

  /** Splitting `x + rest` after its first character, where `x` opens no
      match. */
  lemma LeadHead(x: string, rest: string, t: string, u: string)
    requires |x| > 0 && OpensNothing(x, rest) && t == x + rest && u == x[1..] + rest
    ensures |t| > 0 && t[0] == x[0] && t[1..] == u
    ensures !(|t| >= 2 && t[0] == '!' && t[1] == '[') && OpensNothing(x[1..], rest)
  {
    if |x| >= 2 {
      assert t[1] == x[1];
    } else if |rest| > 0 {
      assert t[1] == rest[0];
    }
    forall i, j | 0 <= i < j < |x| - 1 && j == i + 1 ensures !(x[1..][i] == '!' && x[1..][j] == '[') {
      assert x[1..][i] == x[i + 1] && x[1..][j] == x[j + 1];
    }
  }

  /** Text that opens no match is passed over by the URL scan. */
  lemma {:induction false} SkipLeadUrls(x: string, rest: string)
    requires OpensNothing(x, rest)
    ensures ImageUrls(x + rest) == ImageUrls(rest)
    decreases |x|
  {
    if |x| > 0 {
      var t, u := x + rest, x[1..] + rest;
      LeadHead(x, rest, t, u);
      NoLinkWithoutOpen(t, false);
      SkipLeadUrls(x[1..], rest);
    } else {
      assert x + rest == rest;
    }
  }

  /** Text without `!` opens no match, whatever follows it. */
  lemma BangFree(x: string, rest: string)
    requires '!' !in x
    ensures OpensNothing(x, rest)
  {
    forall i | 0 <= i < |x| ensures x[i] != '!' {
      assert x[i] in x;
    }
  }

  /** Text without `!` is passed over by the URL scan. */
  lemma SkipPlainUrls(x: string, rest: string)
    requires '!' !in x
    ensures ImageUrls(x + rest) == ImageUrls(rest)
  {
    BangFree(x, rest);
    SkipLeadUrls(x, rest);
  }

  /** With no match at the start the rewrite copies the first character. */
  lemma RewriteCopyAt(t: string, tail: string, upload: string -> Call<string>)
    requires |t| > 0 && !(|t| >= 2 && t[0] == '!' && t[1] == '[') && tail == t[1..]
    ensures RewriteImages(t, upload) == [t[0]] + RewriteImages(tail, upload)
  {
    NoLinkWithoutOpen(t, true);
  }

  /** The first character copied ahead of the copy of the others. */
  lemma CopiedHead(x: string, whole: string, tail: string, r: string)
    requires |x| > 0 && whole == [x[0]] + tail && tail == x[1..] + r
    ensures whole == x + r
  {
    AppendAssoc([x[0]], x[1..], r);
    assert [x[0]] + x[1..] == x;
  }

  /** Text that opens no match is copied by the rewrite. */
  lemma {:induction false} SkipLead(x: string, rest: string, upload: string -> Call<string>)
    requires OpensNothing(x, rest)
    ensures RewriteImages(x + rest, upload) == x + RewriteImages(rest, upload)
    decreases |x|
  {
    if |x| > 0 {
      var t, u := x + rest, x[1..] + rest;
      LeadHead(x, rest, t, u);
      RewriteCopyAt(t, u, upload);
      SkipLead(x[1..], rest, upload);
      CopiedHead(x, RewriteImages(t, upload), RewriteImages(u, upload), RewriteImages(rest, upload));
    } else {
      assert x + rest == rest;
    }
  }

  /** One image at the start: its URL is found and the scan goes on after it. */
  lemma PieceUrls(alt: string, url: string, rest: string)
    requires ']' !in alt && '\n' !in alt && ')' !in url && '\n' !in url
    ensures ImageUrls(Image(alt, url) + rest) == [url] + ImageUrls(rest)
  {
    PieceLink(alt, url, rest, false, Image(alt, url) + rest);
    PieceParts(alt, url, rest);
  }

  /** A rendered text followed by `tail` splits into the first lead, the
      first image and the rest. */
  lemma RenderFirst(refs: seq<ImageRef>, tail: string, rest: string)
    requires |refs| > 0 && rest == Render(refs[1..]) + tail
    ensures Render(refs) + tail == refs[0].lead + (Image(refs[0].alt, refs[0].url) + rest)
    ensures (Image(refs[0].alt, refs[0].url) + rest)[0] == '!'
  {
    var p := Image(refs[0].alt, refs[0].url);
    AppendAssoc(refs[0].lead, p, Render(refs[1..]));
    AppendAssoc(refs[0].lead + p, Render(refs[1..]), tail);
    AppendAssoc(refs[0].lead, p, rest);
    AppendAssoc(p, Render(refs[1..]), tail);
  }

  /** `extract_image_urls` finds the URL of every image, left to right,
      whatever text without `![` surrounds the images. */
  lemma {:induction false} ImageUrlsOfRender(refs: seq<ImageRef>, tail: string)
    requires forall i :: 0 <= i < |refs| ==> Plain(refs[i])
    requires NoOpen(tail)
    ensures ImageUrls(Render(refs) + tail) == Urls(refs)
  {
    if |refs| > 0 {
      var r := refs[0];
      assert Plain(r);
      var rest := Render(refs[1..]) + tail;
      RenderFirst(refs, tail, rest);
      SkipLeadUrls(r.lead, Image(r.alt, r.url) + rest);
      PieceUrls(r.alt, r.url, rest);
      ImageUrlsOfRender(refs[1..], tail);
    } else {
      SkipLeadUrls(tail, "");
      assert tail + "" == tail && "" + tail == tail;
    }
  }

  /** A line break in `lead` before any `]`. */
  ghost predicate BreaksLine(lead: string) {
    exists q :: 0 <= q < |lead| && lead[q] == '\n' && ']' !in lead[..q]
  }

  /** The line after an image whose next lead breaks the line carries no
      `]`. */
  lemma RenderLineEndsPlain(refs: seq<ImageRef>, tail: string)
    requires |refs| > 0 && BreaksLine(refs[0].lead)
    ensures LineEndsPlain(Render(refs) + tail)
  {
    var lead := refs[0].lead;
    var q :| 0 <= q < |lead| && lead[q] == '\n' && ']' !in lead[..q];
    var s := Render(refs) + tail;
    RenderFirst(refs, tail, Render(refs[1..]) + tail);
    assert s[q] == '\n' && s[..q] == lead[..q];
  }

  /** One "http" image at the start is replaced and the scan goes on after it. */
  lemma PieceRewriteHttp(alt: string, url: string, rest: string, upload: string -> Call<string>)
    requires ']' !in alt && '\n' !in alt && ')' !in url && '\n' !in url && StartsWith(url, "http")
    ensures RewriteImages(Image(alt, url) + rest, upload)
      == Replacement(Image(alt, url), alt, url, upload) + RewriteImages(rest, upload)
  {
    PieceLink(alt, url, rest, true, Image(alt, url) + rest);
    PieceParts(alt, url, rest);
  }

  /** One image without "http" at the start is copied as it is. */
  lemma PieceRewritePlain(alt: string, url: string, rest: string, upload: string -> Call<string>)
    requires '!' !in alt && ']' !in alt && '\n' !in alt
    requires '!' !in url && ']' !in url && ')' !in url && '\n' !in url
    requires !StartsWith(url, "http") && LineEndsPlain(rest)
    ensures RewriteImages(Image(alt, url) + rest, upload) == Image(alt, url) + RewriteImages(rest, upload)
  {
    var p := Image(alt, url);
    var t := p + rest;
    PieceNoHttpLink(alt, url, rest);
    assert t[1..] == p[1..] + rest;
    assert '!' !in p[1..] by {
      assert p[1..] == "[" + alt + "](" + url + ")";
    }
    assert RewriteImages(t, upload) == [t[0]] + RewriteImages(t[1..], upload);
    BangFree(p[1..], rest);
    SkipLead(p[1..], rest, upload);
    AppendAssoc([t[0]], p[1..], RewriteImages(rest, upload));
    assert [t[0]] + p[1..] == p;
  }

  /** A URL that does not start with "http", read in `t` at `k` and closed
      by `)`, does not start "http" there either. */
  lemma NotHttpAt(t: string, k: nat, url: string)
    requires k + |url| < |t| && t[k..k + |url|] == url && t[k + |url|] == ')' && !StartsWith(url, "http")
    ensures !StartsWith(t[k..], "http")
  {
    if |url| >= 4 {
      assert t[k..][..4] == t[k..k + |url|][..4];
    } else {
      assert t[k..][|url|] == ')';
    }
  }

  /** A slice of a slice of `t`, read in `t`. */
  lemma SliceIn(t: string, k: nat, a: string, i: nat, j: nat)
    requires k + |a| <= |t| && t[k..k + |a|] == a && i <= j <= |a|
    ensures t[k + i..k + j] == a[i..j]
  {
    forall x | 0 <= x < j - i ensures t[k + i..k + j][x] == a[i..j][x] {
      assert t[k + i..k + j][x] == t[k + i + x] == t[k..k + |a|][i + x];
    }
  }

  /** The parts of the alt group of a match that runs on past an image's
      `](`. */
  lemma AltParts(alt: string, url: string, m: string, a: string)
    requires a == alt + "](" + url + ")" + m
    ensures var n := |alt|;
      && |a| == n + 3 + |url| + |m| && a[..n] == alt && a[n] == ']'
      && a[n + 2..n + 2 + |url|] == url && a[n + 2 + |url|] == ')'
      && a[n + 1..] == "(" + url + ")" + m
  {
    var n := |alt|;
    assert a[n + 1..] == "(" + url + ")" + m;
    assert a[n + 2..n + 2 + |url|] == a[n + 1..][1..1 + |url|];
  }

  /** The text of an image whose alt runs on past another image's `](`,
      read back character by character. */
  lemma SpanSlices(alt: string, url: string, m: string, lurl: string, rest: string, a: string, t: string)
    requires a == alt + "](" + url + ")" + m && t == Image(a, lurl) + rest
    ensures var c, cc, e := 2 + |alt|, 2 + |a|, 4 + |a| + |lurl|;
      && c + |url| + 3 <= cc && cc + 2 <= e < |t| && t[..2] == "!["
      && t[2..c] == alt && t[c] == ']' && t[c + 1..cc] == "(" + url + ")" + m
      && t[c + 2..c + 2 + |url|] == url && t[c + 2 + |url|] == ')'
      && t[cc] == ']' && t[cc + 1] == '(' && t[cc + 2..e] == lurl && t[e] == ')'
  {
    var c, cc, e := 2 + |alt|, 2 + |a|, 4 + |a| + |lurl|;
    PieceSlices(a, lurl, rest, t);
    AltParts(alt, url, m, a);
    SliceIn(t, 2, a, 0, |alt|);
    SliceIn(t, 2, a, |alt|, |alt| + 1);
    SliceIn(t, 2, a, |alt| + 2, |alt| + 2 + |url|);
    SliceIn(t, 2, a, |alt| + 2 + |url|, |alt| + 3 + |url|);
    SliceIn(t, 2, a, |alt| + 1, |a|);
    assert t[c..c + 1][0] == t[c] && t[c + 2 + |url|..c + 3 + |url|][0] == t[c + 2 + |url|];
    assert t[cc + 2..e] == (lurl + ")" + rest)[..|lurl|];
  }

  /** The alt group passes a `](` whose URL group fails. */
  lemma LinkFromPass(t: string, j: nat, http: bool)
    requires j + 1 < |t| && t[j] == ']' && UrlEnd(t, j + 2, http).None?
    ensures LinkFrom(t, j, http) == LinkFrom(t, j + 1, http)
  {
  }

  /** The rewrite's match at the start of `t` when the alt group passes
      the `](` at `c`, whose URL does not start with "http", and ends at
      the `](` at `cc`. */
  lemma LinkChain(t: string, c: nat, cc: nat, e: nat)
    requires 2 <= c < cc && cc + 2 <= e < |t| && t[..2] == "!["
    requires ']' !in t[2..c] && '\n' !in t[2..c]
    requires t[c] == ']' && !StartsWith(t[c + 2..], "http")
    requires ']' !in t[c + 1..cc] && '\n' !in t[c + 1..cc]
    requires t[cc] == ']' && t[cc + 1] == '(' && UrlEnd(t, cc + 2, true) == Some(e)
    ensures LinkAt(t, true) == Some(Link(cc, e))
  {
    LinkFromSkips(t, 2, c, true);
    LinkFromPass(t, c, true);
    LinkFromSkips(t, c + 1, cc, true);
  }

  /** Where the first `](` of an image is followed by no "http", the
      rewrite's pattern passes it and ends at the next `](http...)` on the
      line. */
  lemma LinkPastNonHttp(alt: string, url: string, m: string, lurl: string, rest: string, a: string, t: string)
    requires ']' !in alt && '\n' !in alt && !StartsWith(url, "http")
    requires ']' !in url && '\n' !in url && ']' !in m && '\n' !in m
    requires StartsWith(lurl, "http") && ')' !in lurl && '\n' !in lurl
    requires a == alt + "](" + url + ")" + m && t == Image(a, lurl) + rest
    ensures LinkAt(t, true) == Some(Link(2 + |a|, 4 + |a| + |lurl|))
  {
    var c, cc, e := 2 + |alt|, 2 + |a|, 4 + |a| + |lurl|;
    SpanSlices(alt, url, m, lurl, rest, a, t);
    NotHttpAt(t, c + 2, url);
    NotInThree("(" + url, ")", m, ']');
    NotInThree("(" + url, ")", m, '\n');
    UrlEndAt(t, cc + 2, e, lurl, true);
    LinkChain(t, c, cc, e);
  }

  /** The image and link of `LinkAfterNonHttpImage`, read as one image. */
  lemma ImageSpanning(alt: string, url: string, mid: string, lalt: string, v: string, a: string)
    requires a == alt + "](" + url + ")" + (mid + "[" + lalt)
    ensures Image(alt, url) + mid + "[" + lalt + "](" + v + ")" == Image(a, v)
  {
  }

  /** The rewrite's match that runs past a non-"http" image's `](` is
      replaced as one image with the uploaded URL. */
  lemma SpanRewrite(alt: string, url: string, m: string, lurl: string, rest: string, a: string, upload: string -> Call<string>)
    requires ']' !in alt && '\n' !in alt && !StartsWith(url, "http")
    requires ']' !in url && '\n' !in url && ']' !in m && '\n' !in m
    requires StartsWith(lurl, "http") && ')' !in lurl && '\n' !in lurl && upload(lurl).Returned?
    requires a == alt + "](" + url + ")" + m
    ensures RewriteImages(Image(a, lurl) + rest, upload) == Image(a, upload(lurl).value) + RewriteImages(rest, upload)
  {
    var t := Image(a, lurl) + rest;
    LinkPastNonHttp(alt, url, m, lurl, rest, a, t);
    PieceParts(a, lurl, rest);
  }

  /** The rewrite changes more than images: after an image whose URL does
      not start with "http", a plain link `[lalt](lurl)` with an "http" URL
      later on the same line has its URL swapped for the uploaded one. */
  lemma LinkAfterNonHttpImage(alt: string, url: string, mid: string, lalt: string, lurl: string, rest: string, upload: string -> Call<string>)
    requires ']' !in alt && '\n' !in alt
    requires !StartsWith(url, "http") && ']' !in url && '\n' !in url
    requires ']' !in mid && '\n' !in mid && ']' !in lalt && '\n' !in lalt
    requires StartsWith(lurl, "http") && ')' !in lurl && '\n' !in lurl && upload(lurl).Returned?
    ensures RewriteImages(Image(alt, url) + mid + "[" + lalt + "](" + lurl + ")" + rest, upload)
         == Image(alt, url) + mid + "[" + lalt + "](" + upload(lurl).value + ")" + RewriteImages(rest, upload)
  {
    var m := mid + "[" + lalt;
    assert ']' !in m && '\n' !in m;
    var a := alt + "](" + url + ")" + m;
    SpanRewrite(alt, url, m, lurl, rest, a, upload);
    ImageSpanning(alt, url, mid, lalt, lurl, a);
    ImageSpanning(alt, url, mid, lalt, upload(lurl).value, a);
  }

  /** The embedded-image rewrite swaps the URL of each "http" image whose
      upload returns, keeping its alt text. It leaves an image whose
      upload raises, an image whose URL does not start with "http" and all
      the text around them as they were. This holds when the text holds
      no `![` outside the images and the line after each non-"http" image
      breaks before any `]`. */
  lemma {:induction false} RewriteOfRender(refs: seq<ImageRef>, tail: string, upload: string -> Call<string>)
    requires forall i :: 0 <= i < |refs| ==> Plain(refs[i])
    requires NoOpen(tail)
    requires forall i :: 0 <= i < |refs| - 1 && !StartsWith(refs[i].url, "http") ==> BreaksLine(refs[i + 1].lead)
    requires |refs| > 0 && !StartsWith(refs[|refs| - 1].url, "http") ==> LineEndsPlain(tail)
    ensures RewriteImages(Render(refs) + tail, upload) == Render(Uploaded(refs, upload)) + tail
  {
    if |refs| > 0 {
      var r := refs[0];
      assert Plain(r);
      var rest := Render(refs[1..]) + tail;
      RenderFirst(refs, tail, rest);
      SkipLead(r.lead, Image(r.alt, r.url) + rest, upload);
      assert |refs| > 1 ==> refs[1..][|refs| - 2] == refs[|refs| - 1];
      RewriteOfRender(refs[1..], tail, upload);
      var out := Uploaded(refs, upload);
      assert out[1..] == Uploaded(refs[1..], upload);
      RenderFirst(out, tail, Render(out[1..]) + tail);
      if StartsWith(r.url, "http") {
        PieceRewriteHttp(r.alt, r.url, rest, upload);
      } else {
        if |refs| > 1 {
          assert BreaksLine(refs[1].lead);
          RenderLineEndsPlain(refs[1..], tail);
        } else {
          assert rest == tail;
        }
        PieceRewritePlain(r.alt, r.url, rest, upload);
      }
    } else {
      SkipLead(tail, "", upload);
      assert tail + "" == tail && "" + tail == tail;
    }
  }
}
