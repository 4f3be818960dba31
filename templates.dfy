/** The two fixed page templates of `WeChatFormatter`
    (src/weflow/core/formatter.py): one article section and the frame of
    the whole digest. Both are single f-strings; the texts below are those
    f-strings cut at their holes, with the inline styles written in chunks
    of whole CSS declarations. */
module Templates {
  import opened Wrappers
  import opened Strings

  const Indent8: string := "        "
  const Indent12: string := "            "
  const Indent16: string := "                "
  const Indent20: string := "                    "

  // ---------------------------------------------------------------------
  // format_article_section

  const SectionStyle: string :=
    "margin-bottom: 40px; " + "border-bottom: 1px solid #eee; " + "padding-bottom: 30px;"
  const SectionTitleStyle: string :=
    "font-size: 22px; color: #333; " + "margin-bottom: 15px; font-weight: bold; " + "line-height: 1.4;"
  const SectionFigureStyle: string := "margin: 0 0 20px 0;"
  const SectionImageStyle: string :=
    "width: 100%; border-radius: 8px; " + "box-shadow: 0 4px 12px rgba(0,0,0,0.1);"
  const SummaryStyle: string :=
    "font-size: 16px; color: #555; " + "line-height: 1.8; text-align: justify;"

  /** Up to the title: the section and its heading. */
  const SectionHead: string :=
    "\n" + Indent8 + "<section style=\"" + SectionStyle + "\">\n"
    + Indent12 + "<h2 style=\"" + SectionTitleStyle + "\">"
  /** Between the title and the image URL. */
  const SectionToImage: string :=
    "</h2>\n" + Indent12 + "\n" + Indent12 + "<figure style=\"" + SectionFigureStyle + "\">\n"
    + Indent16 + "<img src=\""
  /** Between the image URL and the summary. */
  const SectionToSummary: string :=
    "\" style=\"" + SectionImageStyle + "\" />\n" + Indent12 + "</figure>\n" + Indent12 + "\n"
    + Indent12 + "<div style=\"" + SummaryStyle + "\">\n" + Indent16
  /** After the summary. */
  const SectionTail: string := "\n" + Indent12 + "</div>\n" + Indent8 + "</section>\n" + Indent8

  /** `format_article_section`; the source URL is accepted and not used. */
  function FormatArticleSection(title: string, summary: string, imageUrl: string, sourceUrl: string): string {
    SectionHead + title + SectionToImage + imageUrl + SectionToSummary + summary + SectionTail
  }

  /** The title, the image URL and the summary each appear verbatim in the
      section, in that order, and the source URL has no effect on it. */
  lemma SectionShowsFields(title: string, summary: string, imageUrl: string, sourceUrl: string, otherUrl: string)
    ensures var r := FormatArticleSection(title, summary, imageUrl, sourceUrl);
      && Contains(r, title) && Contains(r, imageUrl) && Contains(r, summary)
      && r == FormatArticleSection(title, summary, imageUrl, otherUrl)
    ensures var r := FormatArticleSection(title, summary, imageUrl, sourceUrl);
      var i := |SectionHead| + |title| + |SectionToImage|;
      var j := i + |imageUrl| + |SectionToSummary|;
      && r[|SectionHead|..|SectionHead| + |title|] == title
      && r[i..i + |imageUrl|] == imageUrl
      && r[j..j + |summary|] == summary
  {
    var r := FormatArticleSection(title, summary, imageUrl, sourceUrl);
    var a := SectionHead + title + SectionToImage + imageUrl + SectionToSummary;
    ContainsMiddle(SectionHead, title, SectionToImage + imageUrl + SectionToSummary + summary + SectionTail);
    ContainsMiddle(SectionHead + title + SectionToImage, imageUrl, SectionToSummary + summary + SectionTail);
    ContainsMiddle(a, summary, SectionTail);
    AppendAssoc5(SectionHead, title, SectionToImage, imageUrl, SectionToSummary, summary, SectionTail);
  }

  /** Regrouping a seven-part concatenation around each of its holes. */
  lemma AppendAssoc5(a: string, x: string, b: string, y: string, c: string, z: string, d: string)
    ensures a + x + b + y + c + z + d == a + x + (b + y + c + z + d)
    ensures a + x + b + y + c + z + d == a + x + b + y + (c + z + d)
  {
    AppendAssoc(a + x + b + y + c, z, d);
    AppendAssoc(a + x + b + y, c, z + d);
    AppendAssoc(a + x + b, y, c + (z + d));
    AppendAssoc(a + x, b, y + (c + (z + d)));
    AppendAssoc(b + y, c, z + d);
    AppendAssoc(b, y, c + (z + d));
    AppendAssoc(c, z, d);
  }

  // ---------------------------------------------------------------------
  // wrap_full_article

  const PageStyle: string :=
    "padding: 15px; font-family: " + "-apple-system, BlinkMacSystemFont, "
    + "'Helvetica Neue', 'PingFang SC', " + "'Microsoft YaHei', 'Source Han Sans SC', "
    + "'Noto Sans CJK SC', " + "'WenQuanYi Micro Hei', sans-serif;"
  const HeaderStyle: string := "margin-bottom: 30px; text-align: center;"
  const TitleStyle: string := "font-size: 22px; font-weight: bold; " + "margin-bottom: 5px;"
  /** "Daily tech picks", the digest's fixed heading. */
  const DigestTitle: string := "每日技术精选"
  const DateRowStyle: string :=
    "display: flex; justify-content: center; " + "align-items: center; margin-top: 5px;"
  const DateStyle: string := "color: #888; font-size: 14px;"
  const EditorStyle: string := "color: #888; font-size: 14px; " + "margin-left: 10px;"

  /** The label that opens the editor paragraph. */
  const EditorLabel: string := "Editor: "

  /** The page frame's opening `div`. */
  const PageOpen: string := "\n" + Indent8 + "<div style=\"" + PageStyle + "\">\n"
  /** The header's opening tag. */
  const HeaderOpen: string := Indent12 + "<header style=\"" + HeaderStyle + "\">\n"
  /** The fixed heading line. */
  const HeadingLine: string := Indent16 + "<h1 style=\"" + TitleStyle + "\">" + DigestTitle + "</h1>\n"
  /** The date row up to the date itself. */
  const DateOpen: string :=
    Indent16 + "<div style=\"" + DateRowStyle + "\">\n" + Indent20 + "<p style=\"" + DateStyle + "\">"
  /** Up to the date: page frame, header, heading and the date paragraph. */
  const PageHead: string := PageOpen + HeaderOpen + HeadingLine + DateOpen
  /** Between the date and the author paragraph. */
  const DateClose: string := "</p>\n" + Indent20
  /** Between the author paragraph and the sections. */
  const PageToSections: string := "\n" + Indent16 + "</div>\n" + Indent12 + "</header>\n" + Indent12 + "\n" + Indent12
  /** After the sections. */
  const PageTail: string := "\n" + Indent8 + "</div>\n" + Indent8

  /** The editor paragraph for a given author. */
  function EditorParagraph(author: string): string {
    "<p style=\"" + EditorStyle + "\">" + EditorLabel + author + "</p>"
  }

  /** Python truthiness of the optional `author` argument (`None` or a `str`). */
  predicate Truthy(author: Option<string>) {
    author.Some? && |author.value| > 0
  }

  /** `author_html`: the editor paragraph when the author is truthy, else "". */
  function AuthorHtml(author: Option<string>): string {
    if Truthy(author) then EditorParagraph(author.value) else ""
  }

  /** `wrap_full_article`; `author` defaults to `None` in the source. */
  function WrapFullArticle(sectionsHtml: string, dateStr: string, author: Option<string>): string {
    PageHead + dateStr + DateClose + AuthorHtml(author) + PageToSections + sectionsHtml + PageTail
  }

  /** The sections and the date appear verbatim in the page; the editor
      paragraph appears when the author is truthy. */
  lemma PageShowsFields(sectionsHtml: string, dateStr: string, author: Option<string>)
    ensures var r := WrapFullArticle(sectionsHtml, dateStr, author);
      && Contains(r, sectionsHtml) && Contains(r, dateStr)
      && (Truthy(author) ==> Contains(r, EditorParagraph(author.value)))
  {
    var h := AuthorHtml(author);
    ContainsMiddle(PageHead, dateStr, DateClose + h + PageToSections + sectionsHtml + PageTail);
    ContainsMiddle(PageHead + dateStr + DateClose, h, PageToSections + sectionsHtml + PageTail);
    ContainsMiddle(PageHead + dateStr + DateClose + h + PageToSections, sectionsHtml, PageTail);
    AppendAssoc5(PageHead, dateStr, DateClose, h, PageToSections, sectionsHtml, PageTail);
    var a := PageHead + dateStr + DateClose;
    AppendAssoc(a + h, PageToSections, sectionsHtml + PageTail);
    AppendAssoc(a + h + PageToSections, sectionsHtml, PageTail);
  }

  // The fixed text of the page never spells the editor label: it has no
  // capital 'E'. Each literal is checked on its own.

  lemma PageStylePart1() ensures 'E' !in "padding: 15px; font-family: " {}
  lemma PageStylePart2() ensures 'E' !in "-apple-system, BlinkMacSystemFont, " {}
  lemma PageStylePart3() ensures 'E' !in "'Helvetica Neue', 'PingFang SC', " {}
  lemma PageStylePart4() ensures 'E' !in "'Microsoft YaHei', 'Source Han Sans SC', " {}
  lemma PageStylePart5() ensures 'E' !in "'Noto Sans CJK SC', " {}
  lemma PageStylePart6() ensures 'E' !in "'WenQuanYi Micro Hei', sans-serif;" {}
  lemma HeaderStylePart1() ensures 'E' !in "margin-bottom: 30px; text-align: center;" {}
  lemma TitleStylePart1() ensures 'E' !in "font-size: 22px; font-weight: bold; " {}
  lemma TitleStylePart2() ensures 'E' !in "margin-bottom: 5px;" {}
  lemma DigestTitlePart1() ensures 'E' !in "每日技术精选" {}
  lemma DateRowStylePart1() ensures 'E' !in "display: flex; justify-content: center; " {}
  lemma DateRowStylePart2() ensures 'E' !in "align-items: center; margin-top: 5px;" {}
  lemma DateStylePart1() ensures 'E' !in "color: #888; font-size: 14px;" {}
  lemma TagsPart1() ensures 'E' !in "<div style=\"" && 'E' !in "\">\n" && 'E' !in "<header style=\"" {}
  lemma TagsPart2() ensures 'E' !in "<h1 style=\"" && 'E' !in "\">" && 'E' !in "</h1>\n" {}
  lemma TagsPart3() ensures 'E' !in "<p style=\"" && 'E' !in "</p>\n" && 'E' !in "\n" {}
  lemma TagsPart4() ensures 'E' !in "</div>\n" && 'E' !in "</header>\n" {}
  lemma IndentsHaveNoE()
    ensures 'E' !in Indent8 && 'E' !in Indent12 && 'E' !in Indent16 && 'E' !in Indent20
  {}

  lemma PageStyleHasNoE() ensures 'E' !in PageStyle {
    PageStylePart1(); PageStylePart2(); PageStylePart3();
    PageStylePart4(); PageStylePart5(); PageStylePart6();
  }

  lemma PageOpenHasNoE() ensures 'E' !in PageOpen && 'E' !in HeaderOpen {
    PageStyleHasNoE(); HeaderStylePart1(); IndentsHaveNoE(); TagsPart1();
  }

  lemma HeadingLineHasNoE() ensures 'E' !in HeadingLine {
    TitleStylePart1(); TitleStylePart2(); DigestTitlePart1(); IndentsHaveNoE(); TagsPart2();
  }

  lemma DateOpenHasNoE() ensures 'E' !in DateOpen {
    DateRowStylePart1(); DateRowStylePart2(); DateStylePart1(); IndentsHaveNoE();
    TagsPart1(); TagsPart3();
  }

  lemma PageHeadHasNoE()
    ensures 'E' !in PageHead
  {
    PageOpenHasNoE(); HeadingLineHasNoE(); DateOpenHasNoE();
  }

  lemma PageRestHasNoE()
    ensures 'E' !in DateClose + PageToSections && 'E' !in PageTail
  {
    IndentsHaveNoE();
    TagsPart3(); TagsPart4();
  }

  /** The editor paragraph appears exactly when the author is truthy: with
      a falsy author, and a date and sections that do not spell the label
      themselves, the label appears nowhere in the page. */
  lemma EditorOnlyForAuthor(sectionsHtml: string, dateStr: string, author: Option<string>)
    requires !Truthy(author)
    requires !Contains(dateStr, EditorLabel) && !Contains(sectionsHtml, EditorLabel)
    ensures !Contains(WrapFullArticle(sectionsHtml, dateStr, author), EditorLabel)
  {
    PageHeadHasNoE();
    PageRestHasNoE();
    var b := DateClose + PageToSections;
    InertPlain(EditorLabel, PageHead);
    InertPlain(EditorLabel, b);
    InertPlain(EditorLabel, PageTail);
    NothingInEmpty(EditorLabel);
    ThreeBlocksKeepAbsent(PageHead, dateStr, b, sectionsHtml, PageTail, "", EditorLabel);
    assert AuthorHtml(author) == "";
    DropAuthor(PageHead, dateStr, DateClose, PageToSections, sectionsHtml, PageTail);
  }

  /** The page with an empty author paragraph, regrouped. */
  lemma DropAuthor(a: string, x: string, b1: string, b2: string, y: string, c: string)
    ensures a + x + b1 + "" + b2 + y + c == a + x + (b1 + b2) + y + c + ""
  {
    AppendAssoc(a + x, b1, b2);
  }
}
