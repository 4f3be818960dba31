/** The HTML side of `WeChatFormatter` (src/weflow/core/formatter.py): the
    fixed chain of tag rewrites that `markdown_to_html` applies to the
    markdown library's output, and the two page templates.

    Regular expressions are not interpreted: each pattern the formatter uses
    has its own scanner below, with the pattern's semantics written out
    (lazy `.*?` that stops at a newline, greedy character classes, `\s`). */
module Formatter {
  import opened Wrappers
  import opened Strings

  // ---------------------------------------------------------------------
  // Inline styles, written in chunks of whole CSS declarations

  const H3Style: string :=
    "font-size: 18px; font-weight: bold; " + "margin-top: 25px; margin-bottom: 15px; " +
    "color: #333; border-left: 4px solid " + "#576b95; padding-left: 10px;"
  const H2Style: string :=
    "font-size: 20px; font-weight: bold; " + "margin-top: 30px; margin-bottom: 20px; " +
    "color: #000;"
  const ParagraphStyle: string := "margin-bottom: 15px; line-height: 1.8; " + "color: #444;"
  const ListStyle: string := "padding-left: 20px; color: #555; " + "margin-bottom: 20px;"
  const ItemStyle: string := "margin-bottom: 8px; line-height: 1.6;"
  const BoldStyle: string := "font-weight: bold; color: #222;"
  const RuleStyle: string := "margin: 40px 0; " + "border-bottom: 1px solid #eee;"
  const FigureStyle: string := "margin: 20px 0;"
  const FigureImageStyle: string :=
    "width: 100%; border-radius: 6px; " + "box-shadow: 0 2px 8px rgba(0,0,0,0.1);"
  const CaptionStyle: string :=
    "font-size: 12px; color: #999; " + "text-align: center; margin-top: 5px;"

  /** `<name>` */
  function Open(name: string): string { "<" + name + ">" }
  /** `</name>` */
  function Close(name: string): string { "</" + name + ">" }
  /** `<name style="style">` */
  function Styled(name: string, style: string): string { "<" + name + " style=\"" + style + "\">" }

  /** The replacement `markdown_to_html` uses for every horizontal rule. */
  const RuleDiv: string := Styled("div", RuleStyle) + Close("div")

  // ---------------------------------------------------------------------
  // `re.sub(r'<t>(.*?)</t>', r'<t style="...">\1</t>', html)`

  /** Index in `t` of the first `close`, provided no newline comes before
      it: the lazy `(.*?)` without DOTALL tries the shortest content first
      and cannot cross a newline. */
  function FirstClose(t: string, close: string): (r: Option<nat>)
    ensures r.Some? ==> OccursAt(t, close, r.value) && '\n' !in t[..r.value]
    ensures r.Some? ==> forall j :: 0 <= j < r.value ==> !OccursAt(t, close, j)
    ensures r.None? ==> forall j :: 0 <= j <= |t| && '\n' !in t[..j] ==> !OccursAt(t, close, j)
  {
    FirstCloseFrom(t, close, 0)
  }

  function FirstCloseFrom(t: string, close: string, i: nat): (r: Option<nat>)
    requires i <= |t|
    requires '\n' !in t[..i]
    requires forall j :: 0 <= j < i ==> !OccursAt(t, close, j)
    ensures r.Some? ==> i <= r.value && OccursAt(t, close, r.value) && '\n' !in t[..r.value]
    ensures r.Some? ==> forall j :: 0 <= j < r.value ==> !OccursAt(t, close, j)
    ensures r.None? ==> forall j :: 0 <= j <= |t| && '\n' !in t[..j] ==> !OccursAt(t, close, j)
    decreases |t| - i
  {
    if OccursAt(t, close, i) then Some(i)
    else if i < |t| && t[i] != '\n' then
      assert t[..i + 1] == t[..i] + [t[i]];
      FirstCloseFrom(t, close, i + 1)
    else
      assert forall j :: i < j <= |t| ==> t[i] in t[..j];
      None
  }

  /** One `re.sub` of the element pattern `open(.*?)close`: each match,
      found from left to right, becomes `newOpen + content + newClose`. */
  function SubTag(s: string, open: string, close: string, newOpen: string, newClose: string): string
    requires |open| > 0
    decreases |s|
  {
    if |s| == 0 then ""
    else if StartsWith(s, open) && FirstClose(s[|open|..], close).Some? then
      var j := FirstClose(s[|open|..], close).value;
      newOpen + s[|open|..][..j] + newClose + SubTag(s[|open| + j + |close|..], open, close, newOpen, newClose)
    else [s[0]] + SubTag(s[1..], open, close, newOpen, newClose)
  }

  // ---------------------------------------------------------------------
  // `re.sub(r'<p style="[^"]+">\s*(<img [^>]+>)\s*</p>', img_repl, html, flags=re.DOTALL)`

  /** Python's `\s` on `str`: the characters for which `str.isspace()` holds. */
  predicate IsSpace(c: char) {
    c == ' ' || ('\t' <= c <= '\r') || ('\U{1c}' <= c <= '\U{1f}') || c == '\U{85}' || c == '\U{a0}'
    || c == '\U{1680}' || ('\U{2000}' <= c <= '\U{200a}') || c == '\U{2028}' || c == '\U{2029}'
    || c == '\U{202f}' || c == '\U{205f}' || c == '\U{3000}'
  }

  /** First index at or after `i` whose character is not whitespace (`\s*`, greedy). */
  function SkipSpace(t: string, i: nat): (r: nat)
    requires i <= |t|
    ensures i <= r <= |t|
    decreases |t| - i
  {
    if i < |t| && IsSpace(t[i]) then SkipSpace(t, i + 1) else i
  }

  /** `SkipSpace` stops at the first non-whitespace character. */
  lemma {:induction false} SkipSpaceSpec(t: string, i: nat)
    requires i <= |t|
    ensures var r := SkipSpace(t, i);
      (r < |t| ==> !IsSpace(t[r])) && forall j :: i <= j < r ==> IsSpace(t[j])
    decreases |t| - i
  {
    if i < |t| && IsSpace(t[i]) {
      SkipSpaceSpec(t, i + 1);
    }
  }

  /** First index at or after `i` holding `c`, or `|t|` (a greedy `[^c]*`). */
  function SkipUntil(t: string, i: nat, c: char): (r: nat)
    requires i <= |t|
    ensures i <= r <= |t|
    decreases |t| - i
  {
    if i < |t| && t[i] != c then SkipUntil(t, i + 1, c) else i
  }

  /** `SkipUntil` stops at the first `c`. */
  lemma {:induction false} SkipUntilSpec(t: string, i: nat, c: char)
    requires i <= |t|
    ensures var r := SkipUntil(t, i, c);
      (r < |t| ==> t[r] == c) && forall j :: i <= j < r ==> t[j] != c
    decreases |t| - i
  {
    if i < |t| && t[i] != c {
      SkipUntilSpec(t, i + 1, c);
    }
  }

  const StyledParagraphPrefix: string := "<p style=\""

  /** A match of the figure pattern at the start of `t`: the `<img ...>` tag
      it captures and the length of the whole match. */
  datatype FigureMatch = FigureMatch(img: string, len: nat)

  /** The literal `p` occurs in `t` at index `k`, read character by
      character. */
  predicate LiteralAt(t: string, k: nat, p: string) {
    k + |p| <= |t| && forall i :: 0 <= i < |p| ==> t[k + i] == p[i]
  }

  /** `<img [^>]+>` at index `c` of `t`: the index of the tag's closing `>`. */
  function ImageTagEnd(t: string, c: nat): (e: Option<nat>)
    requires c <= |t|
    ensures e.Some? ==> c + 5 < e.value < |t| && t[e.value] == '>' && '>' !in t[c..e.value]
  {
    if !LiteralAt(t, c, "<img ") then None
    else
      var e := SkipUntil(t, c + 5, '>');
      if e == c + 5 || e == |t| then None
      else
        SkipUntilSpec(t, c + 5, '>');
        assert forall i :: c <= i < c + 5 ==> t[i] == "<img "[i - c];
        assert forall i :: c <= i < e ==> t[i] != '>';
        Some(e)
  }

  function FigureAt(t: string): (r: Option<FigureMatch>)
    ensures r.Some? ==> 0 < r.value.len <= |t| && StartsWith(t, StyledParagraphPrefix)
  {
    if !StartsWith(t, StyledParagraphPrefix) then None
    else
      var q := SkipUntil(t, |StyledParagraphPrefix|, '"');    // [^"]+
      if q == |StyledParagraphPrefix| || !LiteralAt(t, q, "\">") then None
      else
        FigureFrom(t, SkipSpace(t, q + 2))                      // \s*
  }

  /** The rest of the figure pattern from index `c`: `(<img [^>]+>)\s*</p>`. */
  function FigureFrom(t: string, c: nat): (r: Option<FigureMatch>)
    requires c <= |t|
    ensures r.Some? ==> c < r.value.len <= |t|
  {
    match ImageTagEnd(t, c)
    case None => None
    case Some(e) =>
      var f := SkipSpace(t, e + 1);
      if !LiteralAt(t, f, Close("p")) then None
      else Some(FigureMatch(t[c..e + 1], f + 4))
  }

  /** `re.search(name + '="(.*?)"', tag)`: the value of the leftmost
      `name="..."` whose closing quote comes before any newline. */
  function AttrValue(tag: string, name: string): Option<string>
    decreases |tag|
  {
    var key := name + "=\"";
    if |tag| == 0 then None
    else if StartsWith(tag, key) && SkipUntil(tag, |key|, '"') < |tag|
            && '\n' !in tag[|key|..SkipUntil(tag, |key|, '"')]
    then Some(tag[|key|..SkipUntil(tag, |key|, '"')])
    else AttrValue(tag[1..], name)
  }

  const Indent12: string := "            "
  const Indent16: string := "                "

  // The fixed parts of the text `img_repl` returns, split at the two holes
  const FigureLead: string := "\n" + Indent12
  const FigureOpenTag: string := "<figure style=\"" + FigureStyle + "\">\n" + Indent16
  const ImageOpen: string := "<img src=\""
  const FigureOpen: string := FigureLead + FigureOpenTag + ImageOpen
  const ImageRest: string := "\" style=\"" + FigureImageStyle + "\" />\n" + Indent16
  const CaptionOpen: string := "<figcaption style=\"" + CaptionStyle + "\">"
  const FigureMiddle: string := ImageRest + CaptionOpen
  const CaptionClose: string := "</figcaption>\n" + Indent12
  const FigureEnd: string := "</figure>\n" + Indent12
  const FigureClose: string := CaptionClose + FigureEnd

  /** The text `img_repl` returns for one image paragraph. */
  function FigureHtml(url: string, alt: string): string {
    FigureOpen + url + FigureMiddle + alt + FigureClose
  }

  /** `img_repl`: src and alt of the captured tag, each "" when absent. */
  function ImageReplacement(img: string): string {
    FigureHtml(AttrValue(img, "src").GetOr(""), AttrValue(img, "alt").GetOr(""))
  }

  function Figures(s: string): string
    decreases |s|
  {
    if |s| == 0 then ""
    else match FigureAt(s)
      case Some(m) => ImageReplacement(m.img) + Figures(s[m.len..])
      case None => [s[0]] + Figures(s[1..])
  }

  // ---------------------------------------------------------------------
  // markdown_to_html after the markdown library call

  function StyleHeadings(html: string): string {
    var h3 := SubTag(html, Open("h3"), Close("h3"), Styled("h3", H3Style), Close("h3"));
    SubTag(h3, Open("h2"), Close("h2"), Styled("h2", H2Style), Close("h2"))
  }

  function StyleParagraphs(html: string): string {
    SubTag(html, Open("p"), Close("p"), Styled("p", ParagraphStyle), Close("p"))
  }

  function StyleLists(html: string): string {
    var ul := ReplaceAll(html, Open("ul"), Styled("ul", ListStyle));
    var ol := ReplaceAll(ul, Open("ol"), Styled("ol", ListStyle));
    SubTag(ol, Open("li"), Close("li"), Styled("li", ItemStyle), Close("li"))
  }

  function StyleBold(html: string): string {
    SubTag(html, Open("strong"), Close("strong"), Styled("span", BoldStyle), Close("span"))
  }

  function StyleRules(html: string): string {
    ReplaceAll(ReplaceAll(html, "<hr />", RuleDiv), "<hr>", RuleDiv)
  }

  /** The post-processing of `markdown_to_html`, applied to the HTML that
      the markdown library produced. */
  function PostProcess(html: string): string {
    Figures(StyleRules(StyleBold(StyleLists(StyleParagraphs(StyleHeadings(html))))))
  }

  // ---------------------------------------------------------------------
  // Properties of the element rewrite

  /** `close` occurs in `x + close` only at its end. */
  predicate ClosesOnlyAtEnd(x: string, close: string) {
    forall j :: 0 <= j < |x| ==> !OccursAt(x + close, close, j)
  }

  /** Content without `<` cannot hold the start of a closing tag. */
  lemma LtFreeClosesOnlyAtEnd(x: string, close: string)
    requires |close| > 0 && close[0] == '<' && '<' !in x
    ensures ClosesOnlyAtEnd(x, close)
  {
    forall j | 0 <= j < |x| ensures !OccursAt(x + close, close, j) {
      assert (x + close)[j] == x[j];
    }
  }

  lemma FirstCloseAfter(x: string, close: string, rest: string)
    requires '\n' !in x && ClosesOnlyAtEnd(x, close)
    ensures FirstClose(x + close + rest, close) == Some(|x|)
  {
    var t := x + close + rest;
    assert t[..|x|] == x;
    assert OccursAt(t, close, |x|) by { assert t[|x|..|x| + |close|] == close; }
    forall j | 0 <= j < |x| ensures !OccursAt(t, close, j) {
      OccursLeft(x + close, rest, close, j);
    }
  }

  /** A single-line element whose content holds no closing tag is rewritten
      with its content unchanged, and the scan resumes after it. */
  lemma SubTagElement(open: string, close: string, newOpen: string, newClose: string, x: string, rest: string)
    requires |open| > 0
    requires '\n' !in x && ClosesOnlyAtEnd(x, close)
    ensures SubTag(open + x + close + rest, open, close, newOpen, newClose)
         == newOpen + x + newClose + SubTag(rest, open, close, newOpen, newClose)
  {
    ElementSlices(open, x, close, rest);
    FirstCloseAfter(x, close, rest);
    SubTagElementAt(open + x + close + rest, open, close, newOpen, newClose, x, rest);
  }

  lemma SubTagElementAt(s: string, open: string, close: string, newOpen: string, newClose: string, x: string, rest: string)
    requires |open| > 0 && StartsWith(s, open) && FirstClose(s[|open|..], close) == Some(|x|)
    requires |open| + |x| + |close| <= |s|
    requires s[|open|..|open| + |x|] == x && s[|open| + |x| + |close|..] == rest
    ensures SubTag(s, open, close, newOpen, newClose)
         == newOpen + x + newClose + SubTag(rest, open, close, newOpen, newClose)
  {
    assert s[|open|..][..|x|] == x;
    SubTagUnfold(s, open, close, newOpen, newClose, |x|, x, rest);
  }

  /** One step of the element rewrite at a match of content `m` followed by `tail`. */
  lemma SubTagUnfold(s: string, open: string, close: string, newOpen: string, newClose: string, j: nat, m: string, tail: string)
    requires |open| > 0 && StartsWith(s, open) && FirstClose(s[|open|..], close) == Some(j)
    requires |open| + j + |close| <= |s| && m == s[|open|..][..j] && tail == s[|open| + j + |close|..]
    ensures SubTag(s, open, close, newOpen, newClose) == newOpen + m + newClose + SubTag(tail, open, close, newOpen, newClose)
  {
  }

  lemma ElementSlices(open: string, x: string, close: string, rest: string)
    ensures var s := open + x + close + rest;
      && StartsWith(s, open) && s[|open|..] == x + close + rest
      && s[|open|..|open| + |x|] == x && s[|open| + |x| + |close|..] == rest
  {
    var s := open + x + close + rest;
    assert s[..|open|] == open;
  }

  /** Text holding no `<` passes through an element rewrite whose opening
      tag starts with `<`. */
  lemma {:induction false} SubTagSkips(u: string, rest: string, open: string, close: string, newOpen: string, newClose: string)
    requires |open| > 0 && open[0] == '<' && '<' !in u
    ensures SubTag(u + rest, open, close, newOpen, newClose) == u + SubTag(rest, open, close, newOpen, newClose)
    decreases |u|
  {
    if |u| > 0 {
      SubTagPlainStep(u, rest, open, close, newOpen, newClose);
      SubTagSkips(u[1..], rest, open, close, newOpen, newClose);
      ConsGlue(u, SubTag(rest, open, close, newOpen, newClose));
    } else {
      assert u + rest == rest;
    }
  }

  /** A first character other than `<` is copied by an element rewrite
      whose opening tag starts with `<`. */
  lemma SubTagPlainStep(u: string, rest: string, open: string, close: string, newOpen: string, newClose: string)
    requires |open| > 0 && open[0] == '<' && |u| > 0 && u[0] != '<'
    ensures SubTag(u + rest, open, close, newOpen, newClose) == [u[0]] + SubTag(u[1..] + rest, open, close, newOpen, newClose)
  {
    var s := u + rest;
    assert !StartsWith(s, open) by {
      if |open| <= |s| { assert s[..|open|][0] == s[0]; }
    }
    assert s[1..] == u[1..] + rest;
  }

  lemma ConsGlue(u: string, x: string)
    requires |u| > 0
    ensures [u[0]] + (u[1..] + x) == u + x
  {
    assert u == [u[0]] + u[1..];
  }

  /** An element whose content reaches a newline before any `<` is not
      matched: the pattern has no DOTALL, so it is left as it is. */
  lemma SubTagUnclosed(open: string, close: string, newOpen: string, newClose: string, x: string, rest: string)
    requires |open| > 0 && open[0] == '<' && '<' !in open[1..]
    requires |close| > 0 && close[0] == '<'
    requires '<' !in x && '\n' in x
    ensures SubTag(open + x + rest, open, close, newOpen, newClose)
         == open + x + SubTag(rest, open, close, newOpen, newClose)
  {
    var s := open + x + rest;
    var t := x + rest;
    assert s[|open|..] == t;
    var n :| 0 <= n < |x| && x[n] == '\n';
    assert t[n] == '\n';
    forall j | 0 <= j <= |t| && '\n' !in t[..j] ensures !OccursAt(t, close, j) {
      if j <= n {
        assert t[j] == x[j];
      } else {
        ElementInPrefix(t, n, j);
      }
    }
    assert FirstClose(t, close).None?;
    assert s[1..] == open[1..] + x + rest;
    SubTagSkips(open[1..] + x, rest, open, close, newOpen, newClose);
  }

  /** Where the opening tag does not occur, the element rewrite is the identity. */
  lemma {:induction false} SubTagAbsent(s: string, open: string, close: string, newOpen: string, newClose: string)
    requires |open| > 0 && !Contains(s, open)
    ensures SubTag(s, open, close, newOpen, newClose) == s
    decreases |s|
  {
    if |s| > 0 {
      SubTagAbsent(s[1..], open, close, newOpen, newClose);
    }
  }

  // ---------------------------------------------------------------------
  // Character facts about the fixed texts. The solver reads a string literal
  // character by character, so each chunk of a style is checked on its own.

  lemma H3StylePart1() ensures '<' !in "font-size: 18px; font-weight: bold; " {}
  lemma H3StylePart2() ensures '<' !in "margin-top: 25px; margin-bottom: 15px; " {}
  lemma H3StylePart3() ensures '<' !in "color: #333; border-left: 4px solid " {}
  lemma H3StylePart4() ensures '<' !in "#576b95; padding-left: 10px;" {}
  lemma H2StylePart1() ensures '<' !in "font-size: 20px; font-weight: bold; " {}
  lemma H2StylePart2() ensures '<' !in "margin-top: 30px; margin-bottom: 20px; " {}
  lemma H2StylePart3() ensures '<' !in "color: #000;" {}
  lemma ParagraphStylePart1() ensures '<' !in "margin-bottom: 15px; line-height: 1.8; " {}
  lemma ParagraphStylePart2() ensures '<' !in "color: #444;" {}
  lemma ListStylePart1() ensures '<' !in "padding-left: 20px; color: #555; " {}
  lemma ListStylePart2() ensures '<' !in "margin-bottom: 20px;" {}
  lemma ItemStylePart1() ensures '<' !in "margin-bottom: 8px; line-height: 1.6;" {}
  lemma BoldStylePart1() ensures '<' !in "font-weight: bold; color: #222;" {}
  lemma RuleStylePart1() ensures '<' !in "margin: 40px 0; " {}
  lemma RuleStylePart2() ensures '<' !in "border-bottom: 1px solid #eee;" {}
  lemma FigureStylePart1() ensures '<' !in "margin: 20px 0;" {}
  lemma FigureImageStylePart1() ensures '<' !in "width: 100%; border-radius: 6px; " {}
  lemma FigureImageStylePart2() ensures '<' !in "box-shadow: 0 2px 8px rgba(0,0,0,0.1);" {}
  lemma CaptionStylePart1() ensures '<' !in "font-size: 12px; color: #999; " {}
  lemma CaptionStylePart2() ensures '<' !in "text-align: center; margin-top: 5px;" {}

  lemma ParagraphStyleQuotePart1() ensures '"' !in "margin-bottom: 15px; line-height: 1.8; " {}
  lemma ParagraphStyleQuotePart2() ensures '"' !in "color: #444;" {}

  lemma ParagraphStyleHasNoQuote() ensures |ParagraphStyle| > 0 && '"' !in ParagraphStyle {
    ParagraphStyleQuotePart1();
    ParagraphStyleQuotePart2();
  }

  lemma H3StyleHasNoTag() ensures '<' !in H3Style {
    H3StylePart1();
    H3StylePart2();
    H3StylePart3();
    H3StylePart4();
  }

  lemma H2StyleHasNoTag() ensures '<' !in H2Style {
    H2StylePart1();
    H2StylePart2();
    H2StylePart3();
  }

  lemma ParagraphStyleHasNoTag() ensures '<' !in ParagraphStyle {
    ParagraphStylePart1();
    ParagraphStylePart2();
  }

  lemma ListStyleHasNoTag() ensures '<' !in ListStyle {
    ListStylePart1();
    ListStylePart2();
  }

  lemma ItemStyleHasNoTag() ensures '<' !in ItemStyle {
    ItemStylePart1();
  }

  lemma BoldStyleHasNoTag() ensures '<' !in BoldStyle {
    BoldStylePart1();
  }

  lemma RuleStyleHasNoTag() ensures '<' !in RuleStyle {
    RuleStylePart1();
    RuleStylePart2();
  }

  lemma FigureStyleHasNoTag() ensures '<' !in FigureStyle {
    FigureStylePart1();
  }

  lemma FigureImageStyleHasNoTag() ensures '<' !in FigureImageStyle {
    FigureImageStylePart1();
    FigureImageStylePart2();
  }

  lemma CaptionStyleHasNoTag() ensures '<' !in CaptionStyle {
    CaptionStylePart1();
    CaptionStylePart2();
  }

  // ---------------------------------------------------------------------
  // The shapes of the texts the rewrites insert

  lemma StyledShape(name: string, style: string)
    requires |name| > 0 && '<' !in name && '<' !in style
    ensures var r := Styled(name, style);
      |r| > |name| + 1 && r[0] == '<' && '<' !in r[1..] && r[1] == name[0] && r[|name| + 1] == ' '
  {
    var r := Styled(name, style);
    assert r[1..] == name + " style=\"" + style + "\">";
  }

  lemma CloseShape(name: string)
    requires '<' !in name
    ensures var r := Close(name); |r| > 1 && r[0] == '<' && '<' !in r[1..] && r[1] == '/'
  {
    assert Close(name)[1..] == "/" + name + ">";
  }

  /** The opening list tags and the two spellings of a horizontal rule that
      `markdown_to_html` replaces outright. */
  predicate IsBareTag(t: string) {
    t == Open("ul") || t == Open("ol") || t == "<hr />" || t == "<hr>"
  }

  /** No bare list or rule tag is left in `s`. */
  ghost predicate NoBareListsOrRules(s: string) {
    !Contains(s, Open("ul")) && !Contains(s, Open("ol")) && !Contains(s, "<hr />") && !Contains(s, "<hr>")
  }

  lemma BareTagShape(t: string)
    requires IsBareTag(t)
    ensures TagPattern(t) && |t| >= 4
  {
  }

  lemma InertListTags(t: string)
    requires IsBareTag(t)
    ensures Inert(t, Styled("ul", ListStyle)) && Inert(t, Styled("ol", ListStyle))
    ensures Inert(t, Styled("li", ItemStyle)) && Inert(t, Close("li"))
    ensures Inert(t, Styled("span", BoldStyle)) && Inert(t, Close("span"))
  {
    BareTagShape(t);
    ListStyleHasNoTag();
    ItemStyleHasNoTag();
    BoldStyleHasNoTag();
    StyledShape("ul", ListStyle);
    StyledShape("ol", ListStyle);
    if t == Open("ul") {
      InertLed(t, Styled("ul", ListStyle), 3);
      InertLed(t, Styled("ol", ListStyle), 1);
    } else if t == Open("ol") {
      InertLed(t, Styled("ul", ListStyle), 1);
      InertLed(t, Styled("ol", ListStyle), 3);
    } else {
      InertLed(t, Styled("ul", ListStyle), 1);
      InertLed(t, Styled("ol", ListStyle), 1);
    }
    StyledShape("li", ItemStyle);
    InertLed(t, Styled("li", ItemStyle), 1);
    CloseShape("li");
    InertLed(t, Close("li"), 1);
    StyledShape("span", BoldStyle);
    InertLed(t, Styled("span", BoldStyle), 1);
    CloseShape("span");
    InertLed(t, Close("span"), 1);
  }

  lemma InertRule(t: string)
    requires IsBareTag(t)
    ensures Inert(t, RuleDiv)
  {
    BareTagShape(t);
    RuleStyleHasNoTag();
    StyledShape("div", RuleStyle);
    InertLed(t, Styled("div", RuleStyle), 1);
    CloseShape("div");
    InertLed(t, Close("div"), 1);
    InertJoin(t, Styled("div", RuleStyle), Close("div"));
  }

  /** The shape shared by the bare tags: one leading `<`, a closing `>`, no
      quote or newline, and a name starting with `u`, `o` or `h`. */
  ghost predicate TagPattern(t: string) {
    && |t| >= 2 && t[0] == '<' && '<' !in t[1..] && '\n' !in t && '"' !in t && t[|t| - 1] == '>'
    && (t[1] == 'u' || t[1] == 'o' || t[1] == 'h')
  }

  /** A tag opening with `<` and no other `<`, whose name does not start
      like a bare tag's. */
  predicate OtherTag(rep: string) {
    |rep| > 1 && rep[0] == '<' && '<' !in rep[1..] && rep[1] != 'u' && rep[1] != 'o' && rep[1] != 'h'
  }

  lemma InertOtherTag(t: string, rep: string)
    requires TagPattern(t) && OtherTag(rep)
    ensures Inert(t, rep)
  {
    InertLed(t, rep, 1);
  }

  /** A tag assembled from a head that is one, a middle and a tail without `<`. */
  lemma OtherTagOfPieces(rep: string, head: string, mid: string, tail: string)
    requires OtherTag(head) && '<' !in mid && '<' !in tail && rep == head + mid + tail
    ensures OtherTag(rep)
  {
    assert rep[1..] == head[1..] + mid + tail;
  }

  lemma FigureOpenTagShape()
    ensures OtherTag(FigureOpenTag)
  {
    FigureStyleHasNoTag();
    OtherTagOfPieces(FigureOpenTag, "<figure style=\"", FigureStyle, "\">\n" + Indent16);
  }

  lemma CaptionOpenShape()
    ensures OtherTag(CaptionOpen)
  {
    CaptionStyleHasNoTag();
    OtherTagOfPieces(CaptionOpen, "<figcaption style=\"", CaptionStyle, "\">");
  }

  lemma ClosingShapes()
    ensures OtherTag(CaptionClose) && OtherTag(FigureEnd) && OtherTag(ImageOpen)
  {
    OtherTagOfPieces(CaptionClose, "</figcaption>", "\n", Indent12);
    OtherTagOfPieces(FigureEnd, "</figure>", "\n", Indent12);
  }

  lemma InertFigureOpen(t: string)
    requires TagPattern(t)
    ensures Inert(t, FigureOpen)
  {
    InertPlain(t, FigureLead);
    FigureOpenTagShape();
    ClosingShapes();
    InertOtherTag(t, FigureOpenTag);
    InertOtherTag(t, ImageOpen);
    InertJoin(t, FigureLead, FigureOpenTag);
    InertJoin(t, FigureLead + FigureOpenTag, ImageOpen);
  }

  lemma InertFigureMiddle(t: string)
    requires TagPattern(t)
    ensures Inert(t, FigureMiddle)
  {
    FigureImageStyleHasNoTag();
    InertPlain(t, ImageRest);
    CaptionOpenShape();
    InertOtherTag(t, CaptionOpen);
    InertJoin(t, ImageRest, CaptionOpen);
  }

  lemma InertFigureClose(t: string)
    requires TagPattern(t)
    ensures Inert(t, FigureClose)
  {
    ClosingShapes();
    InertOtherTag(t, CaptionClose);
    InertOtherTag(t, FigureEnd);
    InertJoin(t, CaptionClose, FigureEnd);
  }

  // ---------------------------------------------------------------------
  // No rewrite creates a bare list or rule tag

  /** One step of the element rewrite where no element starts: the first
      character is copied. */
  lemma SubTagCopy(s: string, open: string, close: string, newOpen: string, newClose: string, tail: string)
    requires |open| > 0 && |s| > 0 && tail == s[1..]
    requires !(StartsWith(s, open) && FirstClose(s[|open|..], close).Some?)
    ensures SubTag(s, open, close, newOpen, newClose) == [s[0]] + SubTag(tail, open, close, newOpen, newClose)
  {
  }

  /** A prefix of the element rewrite's output that holds no first character
      of the new opening tag was copied from the input. */
  lemma {:induction false} SubTagPrefix(s: string, open: string, close: string, newOpen: string, newClose: string, n: nat)
    requires |open| > 0 && |newOpen| > 0
    requires n <= |SubTag(s, open, close, newOpen, newClose)|
    requires newOpen[0] !in SubTag(s, open, close, newOpen, newClose)[..n]
    ensures n <= |s| && SubTag(s, open, close, newOpen, newClose)[..n] == s[..n]
    decreases |s|
  {
    var r := SubTag(s, open, close, newOpen, newClose);
    if n > 0 {
      if StartsWith(s, open) && FirstClose(s[|open|..], close).Some? {
        FirstInPrefix(r, n);
      } else {
        SubTagCopy(s, open, close, newOpen, newClose, s[1..]);
        var r' := SubTag(s[1..], open, close, newOpen, newClose);
        assert r == [s[0]] + r';
        assert r'[..n - 1] == r[1..n];
        SubTagPrefix(s[1..], open, close, newOpen, newClose, n - 1);
        assert r[..n] == [s[0]] + r'[..n - 1];
      }
    }
  }

  lemma ElementKeepsAbsent(newOpen: string, x: string, newClose: string, r: string, t: string)
    requires Inert(t, newOpen) && Inert(t, newClose) && !Contains(x, t) && !Contains(r, t)
    ensures !Contains(newOpen + x + newClose + r, t)
  {
    BlockThen(newClose, r, t);
    LiteralThen(x, newClose + r, t);
    BlockThen(newOpen, x + (newClose + r), t);
    AppendAssoc(newOpen + x, newClose, r);
    AppendAssoc(newOpen, x, newClose + r);
  }

  /** A rewritten element followed by rewritten text without `t` holds no `t`. */
  lemma SubTagMatchKeepsAbsent(s: string, open: string, close: string, newOpen: string, newClose: string, j: nat, t: string)
    requires |open| > 0 && |s| > 0 && StartsWith(s, open) && FirstClose(s[|open|..], close) == Some(j)
    requires |open| + j + |close| <= |s|
    requires Inert(t, newOpen) && Inert(t, newClose) && !Contains(s, t)
    requires !Contains(SubTag(s[|open| + j + |close|..], open, close, newOpen, newClose), t)
    ensures !Contains(SubTag(s, open, close, newOpen, newClose), t)
  {
    var m := s[|open|..|open| + j];
    assert m == s[|open|..][..j];
    SubTagUnfold(s, open, close, newOpen, newClose, j, m, s[|open| + j + |close|..]);
    SliceAbsent(s, |open|, |open| + j, t);
    ElementKeepsAbsent(newOpen, m, newClose, SubTag(s[|open| + j + |close|..], open, close, newOpen, newClose), t);
  }

  /** A copied character followed by rewritten text without `t` holds no `t`. */
  lemma SubTagCopyKeepsAbsent(s: string, open: string, close: string, newOpen: string, newClose: string, t: string)
    requires |open| > 0 && |s| > 0 && Inert(t, newOpen) && !Contains(s, t)
    requires !(StartsWith(s, open) && FirstClose(s[|open|..], close).Some?)
    requires !Contains(SubTag(s[1..], open, close, newOpen, newClose), t)
    ensures !Contains(SubTag(s, open, close, newOpen, newClose), t)
  {
    SubTagCopy(s, open, close, newOpen, newClose, s[1..]);
    var r' := SubTag(s[1..], open, close, newOpen, newClose);
    if StartsWith(r', t[1..]) {
      SubTagPrefix(s[1..], open, close, newOpen, newClose, |t| - 1);
    }
    ConsKeepsAbsent(s, r', t);
  }

  /** The element rewrite creates no occurrence of a `t` both its new tags
      are inert with respect to. */
  lemma {:induction false} SubTagKeepsAbsent(s: string, open: string, close: string, newOpen: string, newClose: string, t: string)
    requires |open| > 0 && Inert(t, newOpen) && Inert(t, newClose) && !Contains(s, t)
    ensures !Contains(SubTag(s, open, close, newOpen, newClose), t)
    decreases |s|
  {
    if |s| == 0 {
      NothingInEmpty(t);
    } else {
      var k := SubTagNext(s, open, close);
      SuffixAbsent(s, k, t);
      SubTagKeepsAbsent(s[k..], open, close, newOpen, newClose, t);
      SubTagStepKeepsAbsent(s, open, close, newOpen, newClose, t);
    }
  }

  /** Where the element rewrite resumes after the first step of its scan. */
  ghost function SubTagNext(s: string, open: string, close: string): (k: nat)
    requires |open| > 0 && |s| > 0
    ensures 0 < k <= |s|
  {
    if StartsWith(s, open) && FirstClose(s[|open|..], close).Some? then
      |open| + FirstClose(s[|open|..], close).value + |close|
    else 1
  }

  lemma SubTagStepKeepsAbsent(s: string, open: string, close: string, newOpen: string, newClose: string, t: string)
    requires |open| > 0 && |s| > 0 && Inert(t, newOpen) && Inert(t, newClose) && !Contains(s, t)
    requires !Contains(SubTag(s[SubTagNext(s, open, close)..], open, close, newOpen, newClose), t)
    ensures !Contains(SubTag(s, open, close, newOpen, newClose), t)
  {
    if StartsWith(s, open) && FirstClose(s[|open|..], close).Some? {
      SubTagMatchKeepsAbsent(s, open, close, newOpen, newClose, FirstClose(s[|open|..], close).value, t);
    } else {
      SubTagCopyKeepsAbsent(s, open, close, newOpen, newClose, t);
    }
  }

  /** The image tag a figure match captures ends at its first `>`. */
  lemma FigureImageShape(t: string)
    requires FigureAt(t).Some?
    ensures var img := FigureAt(t).value.img;
      |img| > 5 && img[|img| - 1] == '>' && '>' !in img[..|img| - 1]
  {
    var q := SkipUntil(t, |StyledParagraphPrefix|, '"');
    var c := SkipSpace(t, q + 2);
    var e := ImageTagEnd(t, c).value;
    assert t[c..e + 1][..e - c] == t[c..e];
  }

  /** One step of the figure rewrite. */
  lemma FiguresStep(s: string)
    requires |s| > 0
    ensures FigureAt(s).Some? ==> var m := FigureAt(s).value;
      Figures(s) == ImageReplacement(m.img) + Figures(s[m.len..])
    ensures FigureAt(s).None? ==> Figures(s) == [s[0]] + Figures(s[1..])
  {
  }

  lemma FigureHtmlStart(url: string, alt: string)
    ensures |FigureHtml(url, alt)| > 0 && FigureHtml(url, alt)[0] == '\n'
  {
    assert FigureOpen[0] == '\n';
  }

  /** A prefix of the figure rewrite's output without a newline was copied
      from the input. */
  lemma {:induction false} FiguresPrefix(s: string, n: nat)
    requires n <= |Figures(s)| && '\n' !in Figures(s)[..n]
    ensures n <= |s| && Figures(s)[..n] == s[..n]
    decreases |s|
  {
    var r := Figures(s);
    if n > 0 {
      FiguresStep(s);
      if FigureAt(s).Some? {
        var m := FigureAt(s).value;
        FigureHtmlStart(AttrValue(m.img, "src").GetOr(""), AttrValue(m.img, "alt").GetOr(""));
        FirstInPrefix(r, n);
      } else {
        ConsPrefix(s, Figures(s[1..]), n, '\n');
        FiguresPrefix(s[1..], n - 1);
      }
    }
  }

  lemma SliceOfPrefix(s: string, n: nat, a: nat, b: nat)
    requires a <= b <= n <= |s|
    ensures s[..n][a..b] == s[a..b]
  {
  }

  /** An attribute value lies inside its tag before the tag's last character. */
  lemma {:induction false} AttrValueAvoids(tag: string, name: string, ch: char)
    requires |tag| > 0 && ch !in tag[..|tag| - 1]
    ensures AttrValue(tag, name).Some? ==> ch !in AttrValue(tag, name).value
    decreases |tag|
  {
    var key := name + "=\"";
    if StartsWith(tag, key) && SkipUntil(tag, |key|, '"') < |tag|
       && '\n' !in tag[|key|..SkipUntil(tag, |key|, '"')] {
      var q := SkipUntil(tag, |key|, '"');
      SliceOfPrefix(tag, |tag| - 1, |key|, q);
    } else if |tag| > 1 {
      assert tag[1..][..|tag| - 2] == tag[..|tag| - 1][1..];
      AttrValueAvoids(tag[1..], name, ch);
    }
  }

  lemma FigureTextKeepsAbsent(src: string, alt: string, r: string, t: string)
    requires TagPattern(t) && '>' !in src && '>' !in alt && !Contains(r, t)
    requires Inert(t, FigureOpen) && Inert(t, FigureMiddle) && Inert(t, FigureClose)
    ensures !Contains(FigureHtml(src, alt) + r, t)
  {
    NotContainsChar(src, t, |t| - 1);
    NotContainsChar(alt, t, |t| - 1);
    assert FigureMiddle[0] == '"' && FigureClose[0] == '<';
    ThreeBlocksKeepAbsent(FigureOpen, src, FigureMiddle, alt, FigureClose, r, t);
  }

  /** The figure text for a captured image tag, followed by text without a
      bare list or rule tag, holds none. */
  lemma ReplacementKeepsAbsent(img: string, r: string, t: string)
    requires TagPattern(t) && |img| > 0 && '>' !in img[..|img| - 1] && !Contains(r, t)
    ensures !Contains(ImageReplacement(img) + r, t)
  {
    AttrValueAvoids(img, "src", '>');
    AttrValueAvoids(img, "alt", '>');
    InertFigureOpen(t);
    InertFigureMiddle(t);
    InertFigureClose(t);
    FigureTextKeepsAbsent(AttrValue(img, "src").GetOr(""), AttrValue(img, "alt").GetOr(""), r, t);
  }

  /** The figure rewrite creates no bare list or rule tag. */
  lemma {:induction false} FiguresKeepsAbsent(s: string, t: string)
    requires TagPattern(t) && !Contains(s, t)
    ensures !Contains(Figures(s), t)
    decreases |s|
  {
    if |s| > 0 {
      var k := FiguresNext(s);
      if Contains(s[k..], t) { ContainsSuffix(s, k, t); }
      FiguresKeepsAbsent(s[k..], t);
      FiguresStepKeepsAbsent(s, t);
    }
  }

  /** Where the figure rewrite resumes after the first step of its scan. */
  ghost function FiguresNext(s: string): (k: nat)
    requires |s| > 0
    ensures 0 < k <= |s|
  {
    match FigureAt(s)
    case Some(m) => m.len
    case None => 1
  }

  lemma FiguresStepKeepsAbsent(s: string, t: string)
    requires |s| > 0 && TagPattern(t) && !Contains(s, t)
    requires !Contains(Figures(s[FiguresNext(s)..]), t)
    ensures !Contains(Figures(s), t)
  {
    if FigureAt(s).Some? {
      FigureMatchKeepsAbsent(s, t);
    } else {
      FigureCopyKeepsAbsent(s, t);
    }
  }

  lemma FigureMatchKeepsAbsent(s: string, t: string)
    requires |s| > 0 && FigureAt(s).Some? && TagPattern(t)
    requires !Contains(Figures(s[FigureAt(s).value.len..]), t)
    ensures !Contains(Figures(s), t)
  {
    var m := FigureAt(s).value;
    FiguresAtMatch(s, m.img, s[m.len..]);
    FigureImageShape(s);
    ReplacementKeepsAbsent(m.img, Figures(s[m.len..]), t);
  }

  lemma FigureCopyKeepsAbsent(s: string, t: string)
    requires |s| > 0 && FigureAt(s).None? && TagPattern(t) && !Contains(s, t)
    requires !Contains(Figures(s[1..]), t)
    ensures !Contains(Figures(s), t)
  {
    var r' := Figures(s[1..]);
    FiguresAtCopy(s, s[1..]);
    if StartsWith(r', t[1..]) {
      FiguresKeepRestPrefix(s[1..], t);
    }
    ConsKeepsAbsent(s, r', t);
  }

  /** Figure output that starts with the rest of a one-line `t` copies that
      start from its input. */
  lemma FiguresKeepRestPrefix(u: string, t: string)
    requires |t| > 0 && '\n' !in t && StartsWith(Figures(u), t[1..])
    ensures StartsWith(u, t[1..])
  {
    FiguresPrefixWhenPlain(u, |t| - 1);
    CopiedPrefixCarries(Figures(u), u, t, '\n');
  }

  /** `FiguresPrefix` with its precondition as a hypothesis. */
  lemma FiguresPrefixWhenPlain(s: string, n: nat)
    ensures (n <= |Figures(s)| && '\n' !in Figures(s)[..n]) ==> n <= |s| && Figures(s)[..n] == s[..n]
  {
    if n <= |Figures(s)| && '\n' !in Figures(s)[..n] {
      FiguresPrefix(s, n);
    }
  }

  /** The figure rewrite at a figure whose image tag is `img`, followed by `tail`. */
  lemma FiguresAtMatch(s: string, img: string, tail: string)
    requires |s| > 0 && FigureAt(s).Some?
    requires img == FigureAt(s).value.img && tail == s[FigureAt(s).value.len..]
    ensures Figures(s) == ImageReplacement(img) + Figures(tail)
  {
  }

  /** The figure rewrite where no figure starts: the first character is copied. */
  lemma FiguresAtCopy(s: string, tail: string)
    requires |s| > 0 && FigureAt(s).None? && tail == s[1..]
    ensures Figures(s) == [s[0]] + Figures(tail)
  {
  }

  /** After the rewrites, no given bare list or rule tag is left. */
  lemma PostProcessDropsTag(html: string, t: string)
    requires IsBareTag(t)
    ensures !Contains(PostProcess(html), t)
  {
    var a := StyleParagraphs(StyleHeadings(html));
    var ul := ReplaceAll(a, Open("ul"), Styled("ul", ListStyle));
    var ol := ReplaceAll(ul, Open("ol"), Styled("ol", ListStyle));
    var li := SubTag(ol, Open("li"), Close("li"), Styled("li", ItemStyle), Close("li"));
    var b := StyleBold(li);
    var h1 := ReplaceAll(b, "<hr />", RuleDiv);
    var h2 := ReplaceAll(h1, "<hr>", RuleDiv);
    InertListTags(t);
    InertRule(t);
    InertListTags(Open("ul"));
    InertListTags(Open("ol"));
    InertRule("<hr />");
    InertRule("<hr>");
    if t == Open("ul") || t == Open("ol") {
      if t == Open("ul") {
        ReplaceAllLeavesNone(a, Open("ul"), Styled("ul", ListStyle));
        ReplaceAllKeepsAbsent(ul, Open("ol"), Styled("ol", ListStyle), t);
      } else {
        ReplaceAllLeavesNone(ul, Open("ol"), Styled("ol", ListStyle));
      }
      SubTagKeepsAbsent(ol, Open("li"), Close("li"), Styled("li", ItemStyle), Close("li"), t);
      SubTagKeepsAbsent(li, Open("strong"), Close("strong"), Styled("span", BoldStyle), Close("span"), t);
      ReplaceAllKeepsAbsent(b, "<hr />", RuleDiv, t);
      ReplaceAllKeepsAbsent(h1, "<hr>", RuleDiv, t);
    } else if t == "<hr />" {
      ReplaceAllLeavesNone(b, "<hr />", RuleDiv);
      ReplaceAllKeepsAbsent(h1, "<hr>", RuleDiv, t);
    } else {
      ReplaceAllLeavesNone(h1, "<hr>", RuleDiv);
    }
    BareTagShape(t);
    FiguresKeepsAbsent(h2, t);
  }

  /** Every `<ul>`, `<ol>`, `<hr />` and `<hr>` is replaced: none is left
      in the output of the post-processing, whatever its input. */
  lemma PostProcessLeavesNoBareTags(html: string)
    ensures NoBareListsOrRules(PostProcess(html))
  {
    PostProcessDropsTag(html, Open("ul"));
    PostProcessDropsTag(html, Open("ol"));
    PostProcessDropsTag(html, "<hr />");
    PostProcessDropsTag(html, "<hr>");
  }

  // ---------------------------------------------------------------------
  // Where the scanners stop

  /** Every character of `w` is whitespace: what `\s*` consumes. */
  predicate AllSpace(w: string) {
    forall i :: 0 <= i < |w| ==> IsSpace(w[i])
  }

  lemma SkipUntilAt(t: string, i: nat, k: nat, c: char)
    requires i <= k < |t| && t[k] == c
    requires forall j :: i <= j < k ==> t[j] != c
    ensures SkipUntil(t, i, c) == k
  {
    SkipUntilSpec(t, i, c);
  }

  lemma SkipSpaceAt(t: string, i: nat, k: nat)
    requires i <= k <= |t| && (k < |t| ==> !IsSpace(t[k]))
    requires forall j :: i <= j < k ==> IsSpace(t[j])
    ensures SkipSpace(t, i) == k
  {
    SkipSpaceSpec(t, i);
  }

  /** The `<img ...>` tag the markdown library writes for an image, with its
      attributes in `body`. */
  function ImageTag(body: string): string {
    "<img " + body + ">"
  }

  lemma ImageTagEndAt(u: string, body: string, rest: string)
    requires |body| > 0 && '>' !in body
    ensures ImageTagEnd(u + ImageTag(body) + rest, |u|) == Some(|u| + 5 + |body|)
  {
    var t := u + ImageTag(body) + rest;
    var c := |u|;
    assert t[c..][..5] == "<img ";
    forall j | c + 5 <= j < c + 5 + |body| ensures t[j] != '>' {
      assert t[j] == body[j - c - 5];
    }
    SkipUntilAt(t, c + 5, c + 5 + |body|, '>');
  }

  lemma FigureFromIs(t: string, c: nat, e: nat, f: nat)
    requires c <= |t| && ImageTagEnd(t, c) == Some(e) && SkipSpace(t, e + 1) == f
    requires LiteralAt(t, f, Close("p"))
    ensures FigureFrom(t, c) == Some(FigureMatch(t[c..e + 1], f + 4))
  {
    var img := t[c..e + 1];
    var len := f + 4;
    assert FigureFrom(t, c) == Some(FigureMatch(img, len));
  }

  lemma FigureFromAt(u: string, body: string, w: string, rest: string)
    requires |body| > 0 && '>' !in body && AllSpace(w)
    ensures FigureFrom(u + ImageTag(body) + w + Close("p") + rest, |u|)
         == Some(FigureMatch(ImageTag(body), |u| + |body| + 6 + |w| + 4))
  {
    var t := u + ImageTag(body) + w + Close("p") + rest;
    var e := |u| + 5 + |body|;
    var f := e + 1 + |w|;
    ImageTagEndAt(u, body, w + Close("p") + rest);
    assert u + ImageTag(body) + (w + Close("p") + rest) == t;
    forall j | e + 1 <= j < f ensures IsSpace(t[j]) {
      assert t[j] == w[j - e - 1];
    }
    assert t[f] == '<';
    SkipSpaceAt(t, e + 1, f);
    assert t[f..][..4] == Close("p");
    FigureFromIs(t, |u|, e, f);
    assert t[|u|..e + 1] == ImageTag(body);
  }

  /** At a styled paragraph `u` holding only an image tag between
      whitespace, the figure pattern matches the whole paragraph. */
  lemma FigureAtParagraph(style: string, w1: string, body: string, w2: string, rest: string, u: string, t: string)
    requires |style| > 0 && '"' !in style && AllSpace(w1) && AllSpace(w2)
    requires |body| > 0 && '>' !in body
    requires u == Styled("p", style) + w1 && t == u + ImageTag(body) + w2 + Close("p") + rest
    ensures FigureAt(t) == Some(FigureMatch(ImageTag(body), |u| + |body| + 6 + |w2| + 4))
  {
    HeadSlices(u, ImageTag(body), w2, Close("p"), rest, t);
    StyledHeadFigure(style, w1, u, t);
    FigureFromAt(u, body, w2, rest);
  }

  /** Where a styled paragraph's opening tag and whitespace lead `t`, the
      scanners of the figure pattern stop at the tag's closing `">` and at
      the next tag. */
  lemma StyledHeadScan(style: string, w1: string, u: string, t: string)
    requires |style| > 0 && '"' !in style && AllSpace(w1)
    requires u == Styled("p", style) + w1 && |u| < |t| && t[..|u|] == u && t[|u|] == '<'
    ensures var q := |StyledParagraphPrefix| + |style|;
      && StartsWith(t, StyledParagraphPrefix) && SkipUntil(t, |StyledParagraphPrefix|, '"') == q
      && LiteralAt(t, q, "\">") && SkipSpace(t, q + 2) == |u|
  {
    var q := |StyledParagraphPrefix| + |style|;
    StyledParagraphPieces(style, w1, u);
    FourPieces(t, StyledParagraphPrefix, style, "\">", w1, u);
    SkipUntilOver(t, |StyledParagraphPrefix|, q, '"', style);
    SkipSpaceOver(t, q + 2, |u|, w1);
  }

  /** A styled paragraph's opening tag followed by `w1`, in its pieces. */
  lemma StyledParagraphPieces(style: string, w1: string, u: string)
    requires u == Styled("p", style) + w1
    ensures u == StyledParagraphPrefix + style + "\">" + w1
  {
  }

  /** Where `t` starts with `a + b + c + d`, the four pieces read back at
      their offsets. */
  lemma FourPieces(t: string, a: string, b: string, c: string, d: string, u: string)
    requires u == a + b + c + d && |u| <= |t| && t[..|u|] == u
    ensures t[..|a|] == a && t[|a|..|a| + |b|] == b
    ensures t[|a| + |b|..|a| + |b| + |c|] == c && t[|a| + |b| + |c|..|u|] == d
  {
    assert t[..|a|] == u[..|a|];
    assert t[|a|..|a| + |b|] == u[|a|..|a| + |b|];
    assert t[|a| + |b|..|a| + |b| + |c|] == u[|a| + |b|..|a| + |b| + |c|];
    assert t[|a| + |b| + |c|..|u|] == u[|a| + |b| + |c|..];
  }

  /** `SkipUntil` passes over a slice without `c` up to a `c`. */
  lemma SkipUntilOver(t: string, i: nat, k: nat, c: char, x: string)
    requires i <= k < |t| && t[i..k] == x && c !in x && t[k] == c
    ensures SkipUntil(t, i, c) == k
  {
    forall j | i <= j < k ensures t[j] != c {
      assert t[j] == x[j - i];
    }
    SkipUntilAt(t, i, k, c);
  }

  /** `SkipSpace` passes over a slice of whitespace up to a character that
      is not. */
  lemma SkipSpaceOver(t: string, i: nat, k: nat, w: string)
    requires i <= k < |t| && t[i..k] == w && AllSpace(w) && !IsSpace(t[k])
    ensures SkipSpace(t, i) == k
  {
    forall j | i <= j < k ensures IsSpace(t[j]) {
      assert t[j] == w[j - i];
    }
    SkipSpaceAt(t, i, k);
  }

  lemma HeadSlices(u: string, a: string, b: string, c: string, rest: string, t: string)
    requires |a| > 0 && a[0] == '<' && t == u + a + b + c + rest
    ensures |u| < |t| && t[..|u|] == u && t[|u|] == '<'
  {
    assert t == u + (a + b + c + rest);
  }

  /** Where a styled paragraph's opening tag and whitespace lead `t`, the
      figure pattern matches as it does from the next tag. */
  lemma StyledHeadFigure(style: string, w1: string, u: string, t: string)
    requires |style| > 0 && '"' !in style && AllSpace(w1)
    requires u == Styled("p", style) + w1 && |u| < |t| && t[..|u|] == u && t[|u|] == '<'
    ensures FigureAt(t) == FigureFrom(t, |u|)
  {
    StyledHeadScan(style, w1, u, t);
    FigureAtIs(t, |StyledParagraphPrefix| + |style|, |u|);
  }

  lemma FigureAtIs(t: string, q: nat, k: nat)
    requires StartsWith(t, StyledParagraphPrefix) && SkipUntil(t, |StyledParagraphPrefix|, '"') == q
    requires q != |StyledParagraphPrefix| && LiteralAt(t, q, "\">") && SkipSpace(t, q + 2) == k
    ensures FigureAt(t) == FigureFrom(t, k)
  {
  }

  /** A styled paragraph holding, between optional whitespace, only an
      image tag becomes the figure for that tag, and the rewrite resumes
      after the paragraph. */
  lemma FiguresParagraph(style: string, w1: string, body: string, w2: string, rest: string)
    requires |style| > 0 && '"' !in style && AllSpace(w1) && AllSpace(w2)
    requires |body| > 0 && '>' !in body
    ensures Figures(Styled("p", style) + w1 + ImageTag(body) + w2 + Close("p") + rest)
         == ImageReplacement(ImageTag(body)) + Figures(rest)
  {
    var u := Styled("p", style) + w1;
    var t := u + ImageTag(body) + w2 + Close("p") + rest;
    FigureAtParagraph(style, w1, body, w2, rest, u, t);
    FiguresStep(t);
    assert t[|u| + |body| + 6 + |w2| + 4..] == rest;
  }

  /** Text without `<p style="` passes through the figure rewrite
      unchanged: the rewrite fires only on paragraphs the `<p>` rewrite
      styled, never on one it left bare. */
  lemma {:induction false} FiguresAbsent(s: string)
    requires !Contains(s, StyledParagraphPrefix)
    ensures Figures(s) == s
    decreases |s|
  {
    if |s| > 0 {
      FiguresStep(s);
      FiguresAbsent(s[1..]);
    }
  }

  // ---------------------------------------------------------------------
  // The whole chain on the paragraph the markdown library writes for an image

  /** A text that starts a tag: `<`, then no other `<`. */
  predicate LedByTag(x: string) {
    |x| >= 2 && x[0] == '<' && '<' !in x[1..]
  }

  lemma ImageTagShape(body: string)
    requires '<' !in body
    ensures LedByTag(ImageTag(body)) && ImageTag(body)[1] == 'i'
  {
    assert ImageTag(body)[1..] == "img " + body + ">";
  }

  lemma ImageTagOneLine(body: string)
    requires '\n' !in body
    ensures '\n' !in ImageTag(body)
  {
    assert '\n' !in "<img ";
    NotInThree("<img ", body, ">", '\n');
  }

  lemma OpenShape(name: string)
    requires |name| > 0 && '<' !in name
    ensures LedByTag(Open(name)) && Open(name)[1] == name[0]
  {
    assert Open(name)[1..] == name + ">";
  }

  /** A tag led text whose second character differs from that of `close`
      holds `close` only where it is appended. */
  lemma LedClosesOnlyAtEnd(x: string, close: string)
    requires LedByTag(x) && |close| >= 2 && close[0] == '<' && x[1] != close[1]
    ensures ClosesOnlyAtEnd(x, close)
  {
    forall j | 0 <= j < |x| ensures !OccursAt(x + close, close, j) {
      if j == 0 {
        assert (x + close)[1] == x[1];
      } else {
        assert (x + close)[j] == x[j] == x[1..][j - 1];
      }
    }
  }

  /** Three tag-led texts, none of whose names starts like `t`'s, do not
      hold `t`. */
  lemma RowLacksTag(t: string, a: string, b: string, c: string)
    requires LedByTag(t) && LedByTag(a) && LedByTag(b) && LedByTag(c)
    requires a[1] != t[1] && b[1] != t[1] && c[1] != t[1]
    ensures !Contains(a + b + c, t)
  {
    InertLed(t, a, 1);
    InertLed(t, b, 1);
    InertLed(t, c, 1);
    InertRow(t, a, b, c);
  }

  /** No rewrite before the figure rewrite has anything to match in a
      paragraph `a + img + close` led by `<p` or `<i` and closed by `</`. */
  lemma RowUntouched(a: string, b: string, c: string)
    requires LedByTag(a) && LedByTag(b) && LedByTag(c)
    requires a[1] in "pi/" && b[1] in "pi/" && c[1] in "pi/"
    ensures var s := a + b + c;
      && SubTag(s, Open("h3"), Close("h3"), Styled("h3", H3Style), Close("h3")) == s
      && SubTag(s, Open("h2"), Close("h2"), Styled("h2", H2Style), Close("h2")) == s
      && ReplaceAll(s, Open("ul"), Styled("ul", ListStyle)) == s
      && ReplaceAll(s, Open("ol"), Styled("ol", ListStyle)) == s
      && SubTag(s, Open("li"), Close("li"), Styled("li", ItemStyle), Close("li")) == s
      && SubTag(s, Open("strong"), Close("strong"), Styled("span", BoldStyle), Close("span")) == s
      && ReplaceAll(s, "<hr />", RuleDiv) == s
      && ReplaceAll(s, "<hr>", RuleDiv) == s
  {
    var s := a + b + c;
    OpenShape("h3");
    RowLacksTag(Open("h3"), a, b, c);
    SubTagAbsent(s, Open("h3"), Close("h3"), Styled("h3", H3Style), Close("h3"));
    OpenShape("h2");
    RowLacksTag(Open("h2"), a, b, c);
    SubTagAbsent(s, Open("h2"), Close("h2"), Styled("h2", H2Style), Close("h2"));
    OpenShape("ul");
    RowLacksTag(Open("ul"), a, b, c);
    ReplaceAllAbsent(s, Open("ul"), Styled("ul", ListStyle));
    OpenShape("ol");
    RowLacksTag(Open("ol"), a, b, c);
    ReplaceAllAbsent(s, Open("ol"), Styled("ol", ListStyle));
    OpenShape("li");
    RowLacksTag(Open("li"), a, b, c);
    SubTagAbsent(s, Open("li"), Close("li"), Styled("li", ItemStyle), Close("li"));
    OpenShape("strong");
    RowLacksTag(Open("strong"), a, b, c);
    SubTagAbsent(s, Open("strong"), Close("strong"), Styled("span", BoldStyle), Close("span"));
    RowLacksTag("<hr />", a, b, c);
    ReplaceAllAbsent(s, "<hr />", RuleDiv);
    RowLacksTag("<hr>", a, b, c);
    ReplaceAllAbsent(s, "<hr>", RuleDiv);
  }

  /** The `<p>` rewrite styles the image paragraph; nothing before it applies. */
  lemma ImageParagraphStyled(body: string)
    requires |body| > 0 && '<' !in body && '>' !in body && '\n' !in body
    ensures StyleParagraphs(StyleHeadings(Open("p") + ImageTag(body) + Close("p")))
         == Styled("p", ParagraphStyle) + ImageTag(body) + Close("p")
  {
    var img := ImageTag(body);
    var t0 := Open("p") + img + Close("p");
    OpenShape("p");
    ImageTagShape(body);
    CloseShape("p");
    RowUntouched(Open("p"), img, Close("p"));
    ImageTagOneLine(body);
    LedClosesOnlyAtEnd(img, Close("p"));
    SubTagElement(Open("p"), Close("p"), Styled("p", ParagraphStyle), Close("p"), img, "");
    assert t0 + "" == t0;
  }

  /** The styled image paragraph passes the list, bold and rule rewrites
      and becomes the figure. */
  lemma StyledImageParagraphFigure(body: string)
    requires |body| > 0 && '<' !in body && '>' !in body
    ensures var t1 := Styled("p", ParagraphStyle) + ImageTag(body) + Close("p");
      Figures(StyleRules(StyleBold(StyleLists(t1)))) == ImageReplacement(ImageTag(body))
  {
    var img := ImageTag(body);
    var t1 := Styled("p", ParagraphStyle) + img + Close("p");
    ImageTagShape(body);
    CloseShape("p");
    ParagraphStyleHasNoTag();
    StyledShape("p", ParagraphStyle);
    RowUntouched(Styled("p", ParagraphStyle), img, Close("p"));
    ParagraphStyleHasNoQuote();
    FiguresParagraph(ParagraphStyle, "", body, "", "");
    DropEmpties(Styled("p", ParagraphStyle), img, Close("p"));
  }

  /** The paragraph the markdown library writes for an image on a line of
      its own, `<p><img ...></p>`, comes out of the post-processing as
      exactly the figure for that image tag. */
  lemma MarkdownImageParagraph(body: string)
    requires |body| > 0 && '<' !in body && '>' !in body && '\n' !in body
    ensures PostProcess(Open("p") + ImageTag(body) + Close("p")) == ImageReplacement(ImageTag(body))
  {
    ImageParagraphStyled(body);
    StyledImageParagraphFigure(body);
  }

  // ---------------------------------------------------------------------
  // `re.search(name + '="(.*?)"', tag)` against a declarative reading

  /** `name="v"` occurs in `tag` at index `k`, with `v` free of quotes and
      newlines: a match of the attribute pattern at `k`. */
  ghost predicate AttrAt(tag: string, name: string, k: int, v: string) {
    var key := name + "=\"";
    && 0 <= k && k + |key| + |v| < |tag|
    && tag[k..k + |key|] == key && tag[k + |key|..k + |key| + |v|] == v
    && tag[k + |key| + |v|] == '"' && '"' !in v && '\n' !in v
  }

  lemma AttrAtShift(tag: string, name: string, i: int, w: string)
    requires |tag| > 0 && i >= 1
    ensures AttrAt(tag, name, i, w) <==> AttrAt(tag[1..], name, i - 1, w)
  {
    var key := name + "=\"";
    if i + |key| + |w| < |tag| {
      SliceOfTail(tag, i - 1, i - 1 + |key|);
      SliceOfTail(tag, i - 1 + |key|, i - 1 + |key| + |w|);
      assert tag[i + |key| + |w|] == tag[1..][i - 1 + |key| + |w|];
    }
  }

  lemma AttrAtZero(tag: string, name: string, w: string)
    ensures AttrAt(tag, name, 0, w) ==>
      var key := name + "=\"";
      StartsWith(tag, key) && SkipUntil(tag, |key|, '"') == |key| + |w| && tag[|key|..|key| + |w|] == w
  {
    var key := name + "=\"";
    if AttrAt(tag, name, 0, w) {
      assert tag[..|key|] == tag[0..|key|];
      forall j | |key| <= j < |key| + |w| ensures tag[j] != '"' {
        assert tag[j] == w[j - |key|];
      }
      SkipUntilAt(tag, |key|, |key| + |w|, '"');
    }
  }

  /** The attribute search returns the value at the leftmost index where the
      attribute pattern matches, and nothing when it matches nowhere. */
  lemma {:induction false} AttrValueLeftmost(tag: string, name: string)
    ensures AttrValue(tag, name).Some? ==>
      exists k :: AttrAt(tag, name, k, AttrValue(tag, name).value)
                && forall i, w :: 0 <= i < k ==> !AttrAt(tag, name, i, w)
    ensures AttrValue(tag, name).None? ==> forall k, w :: !AttrAt(tag, name, k, w)
    decreases |tag|
  {
    var key := name + "=\"";
    if |tag| == 0 {
    } else if StartsWith(tag, key) && SkipUntil(tag, |key|, '"') < |tag|
              && '\n' !in tag[|key|..SkipUntil(tag, |key|, '"')] {
      var q := SkipUntil(tag, |key|, '"');
      SkipUntilSpec(tag, |key|, '"');
      assert tag[0..|key|] == tag[..|key|];
      assert AttrAt(tag, name, 0, tag[|key|..q]);
    } else {
      AttrValueLeftmost(tag[1..], name);
      forall w ensures !AttrAt(tag, name, 0, w) {
        AttrAtZero(tag, name, w);
      }
      if AttrValue(tag[1..], name).Some? {
        var v := AttrValue(tag[1..], name).value;
        var k :| AttrAt(tag[1..], name, k, v) && forall i, w :: 0 <= i < k ==> !AttrAt(tag[1..], name, i, w);
        AttrAtShift(tag, name, k + 1, v);
        forall i, w | 1 <= i < k + 1 ensures !AttrAt(tag, name, i, w) {
          AttrAtShift(tag, name, i, w);
        }
      } else {
        forall k, w | k >= 1 ensures !AttrAt(tag, name, k, w) {
          AttrAtShift(tag, name, k, w);
        }
      }
    }
  }

  // ---------------------------------------------------------------------
  // Elements the lazy pattern cannot match

  /** An element whose content starts with a newline is not matched (the
      pattern has no DOTALL): its opening tag is copied and the rewrite
      goes on inside it. This is how a multi-line paragraph stays bare, and
      so out of reach of the figure rewrite. */
  lemma SubTagNewlineFirst(open: string, close: string, newOpen: string, newClose: string, x: string, rest: string)
    requires LedByTag(open) && |close| > 0 && close[0] == '<' && |x| > 0 && x[0] == '\n'
    ensures SubTag(open + x + rest, open, close, newOpen, newClose)
         == open + SubTag(x + rest, open, close, newOpen, newClose)
  {
    var s := open + x + rest;
    var t := x + rest;
    FirstCloseNewlineFirst(t, close);
    SubTagLedByTag(open, t, close, newOpen, newClose);
    SubTagSkips(open[1..], t, open, close, newOpen, newClose);
    ConsGlue(open, SubTag(t, open, close, newOpen, newClose));
    AppendAssoc(open, x, rest);
  }

  /** Text starting with a newline has no `close` before its first line
      break, when `close` starts with `<`. */
  lemma FirstCloseNewlineFirst(t: string, close: string)
    requires |t| > 0 && t[0] == '\n' && |close| > 0 && close[0] == '<'
    ensures FirstClose(t, close).None?
  {
    forall j | 0 <= j <= |t| && '\n' !in t[..j] ensures !OccursAt(t, close, j) {
      FirstInPrefix(t, j);
    }
  }

  /** An opening tag whose content has no closing tag on its line is copied
      as its first character and then rewritten from the next one. */
  lemma SubTagLedByTag(open: string, t: string, close: string, newOpen: string, newClose: string)
    requires |open| > 0 && FirstClose(t, close).None?
    ensures SubTag(open + t, open, close, newOpen, newClose)
         == [open[0]] + SubTag(open[1..] + t, open, close, newOpen, newClose)
  {
    var s := open + t;
    assert s[|open|..] == t;
    assert s[1..] == open[1..] + t;
  }
}
