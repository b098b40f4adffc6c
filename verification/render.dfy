/** The two document renderers (`_render_markdown`, `_render_html`): per
    paper, in list order and numbered from 1, the metadata lines, the links
    that have a URL, and the summary. */
module Render {
  import opened Text
  import opened HtmlEscape
  import opened Papers
  import opened Sequences

  const NotAvailable := "N/A"

  /** An author or topic list: comma-separated, or "N/A" when empty. */
  function ListCell(xs: seq<string>): (r: string)
    ensures |xs| == 0 ==> r == NotAvailable
    ensures |xs| > 0 ==> r == Join(", ", xs)
    ensures forall i :: 0 <= i < |xs| ==> IsInfix(xs[i], r)
  {
    if |xs| == 0 then NotAvailable
    else
      JoinContainsAll(", ", xs);
      Join(", ", xs)
  }

  // ---------------------------------------------------------------- Markdown

  function DoiMarkdown(url: string): string {
    "[DOI](" + url + ")"
  }

  function OpenAlexMarkdown(url: string): string {
    "[OpenAlex](" + url + ")"
  }

  /** The `links` list of `_render_markdown`: one link per non-empty URL,
      the DOI link first. */
  function MarkdownLinks(p: Paper): (links: seq<string>)
    ensures |links| == (if p.doiUrl != "" then 1 else 0) + (if p.openalexUrl != "" then 1 else 0)
    ensures forall i :: 0 <= i < |links| ==>
              (p.doiUrl != "" && links[i] == DoiMarkdown(p.doiUrl))
              || (p.openalexUrl != "" && links[i] == OpenAlexMarkdown(p.openalexUrl))
    ensures p.doiUrl != "" ==> links[0] == DoiMarkdown(p.doiUrl)
    ensures p.openalexUrl != "" ==> links[|links| - 1] == OpenAlexMarkdown(p.openalexUrl)
  {
    (if p.doiUrl != "" then [DoiMarkdown(p.doiUrl)] else [])
    + (if p.openalexUrl != "" then [OpenAlexMarkdown(p.openalexUrl)] else [])
  }

  /** The links cell: "N/A" exactly when neither URL is set; with both, the
      two links separated by one space. */
  function LinksCell(p: Paper): (r: string)
    ensures r == NotAvailable <==> p.doiUrl == "" && p.openalexUrl == ""
    ensures p.doiUrl != "" && p.openalexUrl != "" ==> r == DoiMarkdown(p.doiUrl) + " " + OpenAlexMarkdown(p.openalexUrl)
    ensures p.doiUrl != "" && p.openalexUrl == "" ==> r == DoiMarkdown(p.doiUrl)
    ensures p.doiUrl == "" && p.openalexUrl != "" ==> r == OpenAlexMarkdown(p.openalexUrl)
  {
    var links := MarkdownLinks(p);
    if |links| == 0 then NotAvailable
    else
      assert StartsWith(Join(" ", links), links[0]);
      assert links[0][0] == '[';
      assert |links| == 2 ==> Join(" ", links[1..]) == links[1];
      Join(" ", links)
  }

  /** The labels that open the metadata lines of a paper's block. */
  const AuthorsLabel := "- 作者："
  const VenueLabel := "- 期刊/来源："
  const DateLabel := "- 发表日期："
  const CitationsLabel := "- 引用数："
  const TopicsLabel := "- 主题："
  const LinksLabel := "- 链接："
  const SummaryLabel := "**中文摘要（自动生成）**："

  /** The ten lines one paper contributes, `idx` being its number: the
      numbered title, authors, venue, date, citations, topics and links,
      a blank line, the summary, and a closing blank line. */
  function MarkdownBlock(idx: int, p: Paper): (lines: seq<string>)
    ensures |lines| == 10
    ensures lines[0] == "## " + IntToString(idx) + ". " + p.title
    ensures lines[1] == AuthorsLabel + ListCell(p.authors)
    ensures lines[2] == VenueLabel + p.venue
    ensures lines[3] == DateLabel + p.publishedDate
    ensures lines[4] == CitationsLabel + IntToString(p.citedByCount)
    ensures lines[5] == TopicsLabel + ListCell(p.topics)
    ensures lines[6] == LinksLabel + LinksCell(p)
    ensures lines[7] == "" && lines[9] == ""
    ensures lines[8] == SummaryLabel + p.summaryZh
  {
    var lines := seq(10, k => MarkdownBlockLine(idx, p, k));
    assert lines[0] == MarkdownBlockLine(idx, p, 0);
    assert lines[1] == MarkdownBlockLine(idx, p, 1);
    assert lines[2] == MarkdownBlockLine(idx, p, 2);
    assert lines[3] == MarkdownBlockLine(idx, p, 3);
    assert lines[4] == MarkdownBlockLine(idx, p, 4);
    assert lines[5] == MarkdownBlockLine(idx, p, 5);
    assert lines[6] == MarkdownBlockLine(idx, p, 6);
    assert lines[7] == MarkdownBlockLine(idx, p, 7);
    assert lines[8] == MarkdownBlockLine(idx, p, 8);
    assert lines[9] == MarkdownBlockLine(idx, p, 9);
    lines
  }

  /** Line `k` (from 0) of a paper's block. */
  function MarkdownBlockLine(idx: int, p: Paper, k: int): string {
    match k
    case 0 => "## " + IntToString(idx) + ". " + p.title
    case 1 => AuthorsLabel + ListCell(p.authors)
    case 2 => VenueLabel + p.venue
    case 3 => DateLabel + p.publishedDate
    case 4 => CitationsLabel + IntToString(p.citedByCount)
    case 5 => TopicsLabel + ListCell(p.topics)
    case 6 => LinksLabel + LinksCell(p)
    case 8 => SummaryLabel + p.summaryZh
    case _ => ""
  }

  function MarkdownHeader(date: string, count: int): seq<string> {
    [ "# 金融经济学每日文献速递（" + date + "）",
      "",
      "共筛选到 **" + IntToString(count) + "** 篇文献。",
      "" ]
  }

  /** The blocks of the papers in list order, numbered from 1. */
  function MarkdownBlocks(papers: seq<Paper>): (blocks: seq<seq<string>>)
    ensures |blocks| == |papers|
    ensures forall i :: 0 <= i < |papers| ==> blocks[i] == MarkdownBlock(i + 1, papers[i])
  {
    Enumerate(papers, 1, MarkdownBlock)
  }

  lemma MarkdownBlocksWidth(papers: seq<Paper>)
    ensures forall i :: 0 <= i < |papers| ==> |MarkdownBlocks(papers)[i]| == 10
  {
    var blocks := MarkdownBlocks(papers);
    forall i | 0 <= i < |papers| ensures |blocks[i]| == 10 {
      assert blocks[i] == MarkdownBlock(i + 1, papers[i]);
    }
  }

  /** The lines of `_render_markdown`: four header lines, then ten per
      paper. */
  function MarkdownLines(date: string, papers: seq<Paper>): (lines: seq<string>)
    ensures |lines| == 4 + 10 * |papers|
  {
    MarkdownBlocksWidth(papers);
    FlattenLength(MarkdownBlocks(papers), 10);
    MarkdownHeader(date, |papers|) + Flatten(MarkdownBlocks(papers))
  }

  /** `_render_markdown`. */
  function RenderMarkdown(date: string, papers: seq<Paper>): string {
    Join("\n", MarkdownLines(date, papers))
  }

  /** The ten lines of the i-th paper (from 0) are its block, numbered
      i + 1. */
  lemma MarkdownPaperLines(date: string, papers: seq<Paper>, i: nat)
    requires i < |papers|
    ensures 4 + 10 * i + 10 <= |MarkdownLines(date, papers)|
    ensures MarkdownLines(date, papers)[4 + 10 * i..4 + 10 * i + 10] == MarkdownBlock(i + 1, papers[i])
  {
    var header := MarkdownHeader(date, |papers|);
    var blocks := MarkdownBlocks(papers);
    MarkdownBlocksWidth(papers);
    FlattenUniformAfter(header, blocks, 10, i);
  }

  /** The i-th paper (from 0) is headed by number i + 1 and its title; its
      author and topic lines show "N/A" for an empty list and the
      comma-joined names otherwise; its links line shows exactly the links
      whose URL is set; its summary line carries the summary. */
  lemma MarkdownNumbering(date: string, papers: seq<Paper>, i: nat)
    requires i < |papers|
    ensures 4 + 10 * i + 10 <= |MarkdownLines(date, papers)|
    ensures MarkdownLines(date, papers)[4 + 10 * i] == "## " + IntToString(i + 1) + ". " + papers[i].title
    ensures |papers[i].authors| == 0 ==> MarkdownLines(date, papers)[4 + 10 * i + 1] == AuthorsLabel + NotAvailable
    ensures |papers[i].authors| > 0 ==> MarkdownLines(date, papers)[4 + 10 * i + 1] == AuthorsLabel + Join(", ", papers[i].authors)
    ensures |papers[i].topics| == 0 ==> MarkdownLines(date, papers)[4 + 10 * i + 5] == TopicsLabel + NotAvailable
    ensures |papers[i].topics| > 0 ==> MarkdownLines(date, papers)[4 + 10 * i + 5] == TopicsLabel + Join(", ", papers[i].topics)
    ensures MarkdownLines(date, papers)[4 + 10 * i + 6] == LinksLabel + LinksCell(papers[i])
    ensures MarkdownLines(date, papers)[4 + 10 * i + 8] == SummaryLabel + papers[i].summaryZh
  {
    MarkdownPaperLines(date, papers, i);
    var lines := MarkdownLines(date, papers);
    var block := lines[4 + 10 * i..4 + 10 * i + 10];
    assert lines[4 + 10 * i] == block[0];
    assert lines[4 + 10 * i + 1] == block[1];
    assert lines[4 + 10 * i + 5] == block[5];
    assert lines[4 + 10 * i + 6] == block[6];
    assert lines[4 + 10 * i + 8] == block[8];
  }

  // -------------------------------------------------------------------- HTML

  /** A link whose URL is escaped. */
  function Anchor(url: string, text: string): string {
    "<a href=\"" + Escape(url) + "\" target=\"_blank\" rel=\"noopener noreferrer\">" + text + "</a>"
  }

  /** The links paragraph: empty when neither URL is set, one anchor
      when one is, and " | " between the two only when both are. */
  function HtmlLinks(p: Paper): (r: string)
    ensures p.doiUrl == "" && p.openalexUrl == "" ==> r == ""
    ensures p.doiUrl != "" && p.openalexUrl == "" ==> r == Anchor(p.doiUrl, "DOI")
    ensures p.doiUrl == "" && p.openalexUrl != "" ==> r == Anchor(p.openalexUrl, "OpenAlex")
    ensures p.doiUrl != "" && p.openalexUrl != "" ==> r == Anchor(p.doiUrl, "DOI") + " | " + Anchor(p.openalexUrl, "OpenAlex")
  {
    var doiLink := if p.doiUrl != "" then Anchor(p.doiUrl, "DOI") else "";
    var oaLink := if p.openalexUrl != "" then Anchor(p.openalexUrl, "OpenAlex") else "";
    var sep := if doiLink != "" && oaLink != "" then " | " else "";
    doiLink + sep + oaLink
  }

  const CardOpening := "<article class=\"card\"> \n    <h2>"

  /** One card of `_render_html`, after `.strip()`. */
  function Card(idx: int, p: Paper): string {
    CardHead(idx, p) + CardRest(p)
  }

  /** The card up to the end of its numbered, escaped title heading. */
  function CardHead(idx: int, p: Paper): string {
    CardOpening + IntToString(idx) + ". " + Escape(p.title) + "</h2>"
  }

  /** The metadata, links and summary paragraphs of a card. Every value
      taken from the paper except the citation count is escaped (the link
      URLs inside `Anchor`). */
  function CardRest(p: Paper): string {
    Join("", CardLines(p))
  }

  function CardLines(p: Paper): seq<string> {
    [AuthorsLine(p), SourceLine(p), TopicsLine(p), LinksLine(p), SummaryLine(p), CardClosing]
  }

  const AuthorsLead := "\n    <p class=\"meta\">作者："
  const SourceLead := "\n    <p class=\"meta\">来源："
  const DateLead := "｜发表："
  const CountLead := "｜引用数："
  const TopicsLead := "\n    <p class=\"meta\">主题："
  const LinksLead := "\n    <p>"
  const SummaryLead := "\n    <p class=\"summary\"><strong>中文摘要（自动生成）:</strong> "
  const ParagraphEnd := "</p>"
  const CardClosing := "\n  </article>"

  function AuthorsLine(p: Paper): string {
    AuthorsLead + Escape(ListCell(p.authors)) + ParagraphEnd
  }

  function SourceLine(p: Paper): string {
    SourceLead + Escape(p.venue) + DateAndCount(p)
  }

  function DateAndCount(p: Paper): string {
    DateLead + Escape(p.publishedDate) + (CountLead + IntToString(p.citedByCount) + ParagraphEnd)
  }

  function TopicsLine(p: Paper): string {
    TopicsLead + Escape(ListCell(p.topics)) + ParagraphEnd
  }

  function LinksLine(p: Paper): string {
    LinksLead + HtmlLinks(p) + ParagraphEnd
  }

  function SummaryLine(p: Paper): string {
    SummaryLead + Escape(p.summaryZh) + ParagraphEnd
  }

  /** The cards, numbered from 1 in list order. */
  function Cards(papers: seq<Paper>): seq<string> {
    Enumerate(papers, 1, Card)
  }

  /** The dynamic part of the page body: the date and count line, then the
      cards joined by newlines. */
  function HtmlBody(date: string, papers: seq<Paper>): string {
    "<p class=\"meta\">日期：" + Escape(date) + "｜篇数：" + IntToString(|papers|) + "</p>\n  "
    + Join("\n", Cards(papers))
  }

  /** The title heading of each card is free of markup characters and reads
      back as the paper's title. */
  lemma CardTitleIsEscaped(papers: seq<Paper>, i: nat)
    requires i < |papers|
    ensures StartsWith(Cards(papers)[i], CardOpening + IntToString(i + 1) + ". " + Escape(papers[i].title) + "</h2>")
    ensures forall k :: 0 <= k < |Escape(papers[i].title)| ==> !IsMarkupChar(Escape(papers[i].title)[k])
    ensures Unescape(Escape(papers[i].title)) == papers[i].title
  {
    var head := CardHead(i + 1, papers[i]);
    assert (head + CardRest(papers[i]))[..|head|] == head;
    UnescapeEscape(papers[i].title);
  }

  /** Both documents agree on when a paper has no links: Markdown shows
      "N/A" exactly when the HTML links paragraph is empty. */
  lemma LinksAgree(p: Paper)
    ensures LinksCell(p) == NotAvailable <==> HtmlLinks(p) == ""
  {
    if p.doiUrl != "" {
      assert |Anchor(p.doiUrl, "DOI")| > 0;
    }
    if p.openalexUrl != "" {
      assert |Anchor(p.openalexUrl, "OpenAlex")| > 0;
    }
  }

  /** Each line of a card occurs in the card. */
  lemma LineInCard(idx: int, p: Paper, i: nat)
    requires i < |CardLines(p)|
    ensures IsInfix(CardLines(p)[i], Card(idx, p))
  {
    JoinContainsPart("", CardLines(p), i);
    InfixOfConcat(CardLines(p)[i], CardHead(idx, p), CardRest(p));
  }

  /** Every paper field a card shows appears there escaped, and so does the
      links paragraph. */
  lemma CardEscapesFields(idx: int, p: Paper)
    ensures IsInfix(Escape(ListCell(p.authors)), Card(idx, p))
    ensures IsInfix(Escape(p.venue), Card(idx, p))
    ensures IsInfix(Escape(p.publishedDate), Card(idx, p))
    ensures IsInfix(Escape(ListCell(p.topics)), Card(idx, p))
    ensures IsInfix(HtmlLinks(p), Card(idx, p))
    ensures IsInfix(Escape(p.summaryZh), Card(idx, p))
  {
    var card := Card(idx, p);
    LineInCard(idx, p, 0);
    LineInCard(idx, p, 1);
    LineInCard(idx, p, 2);
    LineInCard(idx, p, 3);
    LineInCard(idx, p, 4);
    FieldInLine(Escape(ListCell(p.authors)), AuthorsLead, ParagraphEnd, card);
    FieldInLine(Escape(p.venue), SourceLead, DateAndCount(p), card);
    FieldInLine(Escape(p.publishedDate), DateLead, CountLead + IntToString(p.citedByCount) + ParagraphEnd, DateAndCount(p));
    InfixOfConcat(Escape(p.publishedDate), SourceLead + Escape(p.venue), DateAndCount(p));
    InfixTransitive(Escape(p.publishedDate), SourceLine(p), card);
    FieldInLine(Escape(ListCell(p.topics)), TopicsLead, ParagraphEnd, card);
    FieldInLine(HtmlLinks(p), LinksLead, ParagraphEnd, card);
    FieldInLine(Escape(p.summaryZh), SummaryLead, ParagraphEnd, card);
  }

  /** A value between two fixed pieces of a line occurs wherever the line
      does. */
  lemma FieldInLine(f: string, a: string, b: string, s: string)
    ensures IsInfix(f, a + f + b)
    ensures IsInfix(a + f + b, s) ==> IsInfix(f, s)
  {
    InfixOfItself(f);
    InfixInMiddle(f, a, f, b);
    if IsInfix(a + f + b, s) {
      InfixTransitive(f, a + f + b, s);
    }
  }
}
