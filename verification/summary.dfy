/** The heuristic Chinese summary of a paper (`_simple_zh_summary`): a fixed
    sentence naming the title and up to three topics, followed by either a
    clipped copy of the abstract or, when there is no abstract, a fixed
    closing phrase. */
module Summary {
  import opened Text
  import opened Sequences

  /** Longest abstract clause, and how much of a longer one is kept before
      the ellipsis. */
  const Limit := 180
  const KeptChars := 177
  const Ellipsis := "..."

  /** At most this many topics are named. */
  const MaxTopics := 3
  const TopicSeparator := "、"
  /** Named when the paper has no topics ("financial economics"). */
  const DefaultTopic := "金融经济学"

  const Opening := "这篇论文围绕“"
  const AfterTitle := "”展开，主题涉及"
  const AfterTopics := "。"
  /** Introduces the abstract clause ("core content:"). */
  const AbstractLead := "核心内容："
  /** Closes the sentence when there is no abstract ("read the full text
      for methods and conclusions."). */
  const ReadMore := "可进一步阅读全文获取研究方法与结论。"

  /** The abstract stripped, with newlines turned into spaces: one line,
      no surrounding whitespace, empty exactly when the abstract is all
      whitespace, and otherwise the stripped text character by character. */
  function NormalizeAbstract(abstractText: string): (r: string)
    ensures |r| == |Strip(abstractText)|
    ensures forall i :: 0 <= i < |r| ==>
              r[i] == (if Strip(abstractText)[i] == '\n' then ' ' else Strip(abstractText)[i])
    ensures forall i :: 0 <= i < |r| ==> r[i] != '\n'
    ensures r == "" <==> AllSpace(abstractText)
    ensures r != "" ==> !IsSpace(r[0]) && !IsSpace(r[|r| - 1])
  {
    ReplaceChar(Strip(abstractText), '\n', ' ')
  }

  /** Clips text longer than 180 characters to its first 177 plus "...". */
  function Shorten(s: string): (r: string)
    ensures |r| <= Limit
    ensures |s| <= Limit ==> r == s
    ensures |s| > Limit ==> |r| == Limit && StartsWith(r, s[..KeptChars]) && EndsWith(r, Ellipsis)
  {
    if |s| > Limit then s[..KeptChars] + Ellipsis else s
  }

  /** Clipping twice is clipping once. */
  lemma ShortenIdempotent(s: string)
    ensures Shorten(Shorten(s)) == Shorten(s)
  {
  }

  /** The abstract clause of the summary. */
  function AbstractClause(abstractText: string): (r: string)
    ensures |r| <= Limit
    ensures forall i :: 0 <= i < |r| ==> r[i] != '\n'
    ensures r == "" <==> AllSpace(abstractText)
    ensures |Strip(abstractText)| <= Limit ==> r == NormalizeAbstract(abstractText)
    ensures |Strip(abstractText)| > Limit ==> r == NormalizeAbstract(abstractText)[..KeptChars] + Ellipsis
  {
    Shorten(NormalizeAbstract(abstractText))
  }

  /** The topic phrase: the first three topics joined by "、", or the
      default domain label when there are none. Each named topic occurs,
      and when none of them contains "、" splitting the phrase on it gives
      back exactly the first three topics. */
  function TopicText(topics: seq<string>): (r: string)
    ensures |topics| == 0 ==> r == DefaultTopic
    ensures |topics| > 0 ==> StartsWith(r, topics[0])
    ensures forall i :: 0 <= i < |topics| && i < MaxTopics ==> IsInfix(topics[i], r)
    ensures |topics| > 0 && (forall i :: 0 <= i < |topics| && i < MaxTopics ==> '、' !in topics[i]) ==>
              Split(r, '、') == topics[..Min(MaxTopics, |topics|)]
  {
    if |topics| == 0 then DefaultTopic
    else
      var named := topics[..Min(MaxTopics, |topics|)];
      NamedTopicsOccur(topics, named);
      Join(TopicSeparator, named)
  }

  /** The first (up to three) topics all occur in their joined text, which
      starts with the first. */
  lemma NamedTopicsOccur(topics: seq<string>, named: seq<string>)
    requires |topics| > 0 && named == topics[..Min(MaxTopics, |topics|)]
    ensures StartsWith(Join(TopicSeparator, named), topics[0])
    ensures forall i :: 0 <= i < |topics| && i < MaxTopics ==> IsInfix(topics[i], Join(TopicSeparator, named))
    ensures (forall i :: 0 <= i < |topics| && i < MaxTopics ==> '、' !in topics[i]) ==>
              Split(Join(TopicSeparator, named), '、') == named
  {
    JoinContainsAll(TopicSeparator, named);
    if forall i :: 0 <= i < |topics| && i < MaxTopics ==> '、' !in topics[i] {
      forall k | 0 <= k < |named| ensures '、' !in named[k] {
        assert named[k] == topics[k];
      }
      assert TopicSeparator == ['、'];
      SplitJoin(named, '、');
    }
    assert named[0] == topics[0];
    forall i | 0 <= i < |topics| && i < MaxTopics
      ensures IsInfix(topics[i], Join(TopicSeparator, named))
    {
      assert named[i] == topics[i];
    }
  }

  /** The opening of the sentence, up to the topic phrase. */
  function Lead(title: string): string {
    Opening + title + AfterTitle
  }

  /** The closing of the summary: the abstract clause, or the fixed phrase
      when the clause is empty. */
  function Tail(clause: string): string {
    AfterTopics + (if clause != "" then AbstractLead + clause else ReadMore)
  }

  /** `_simple_zh_summary`. */
  function SimpleZhSummary(title: string, abstractText: string, topics: seq<string>): (r: string)
    ensures StartsWith(r, Opening + title)
    ensures IsInfix(title, r)
    ensures forall i :: 0 <= i < |topics| && i < MaxTopics ==> IsInfix(topics[i], r)
    ensures |topics| == 0 ==> IsInfix(DefaultTopic, r)
    ensures |topics| > 0 ==> IsInfix(Join(TopicSeparator, topics[..Min(MaxTopics, |topics|)]), r)
    ensures !AllSpace(abstractText) ==> EndsWith(r, AbstractLead + AbstractClause(abstractText))
    ensures AllSpace(abstractText) ==> EndsWith(r, ReadMore)
    ensures |r| <= |Lead(title)| + |TopicText(topics)| + |AfterTopics| + |AbstractLead| + Limit
  {
    var lead := Lead(title);
    var topicText := TopicText(topics);
    var clause := AbstractClause(abstractText);
    SummaryMentions(title, topicText, Tail(clause), topics);
    SummaryEnding(lead + topicText, clause);
    lead + topicText + Tail(clause)
  }

  /** The summary ends with the abstract clause, or with the read-more
      phrase when the clause is empty; its tail is bounded in length. */
  lemma SummaryEnding(head: string, clause: string)
    requires |clause| <= Limit
    ensures clause != "" ==> EndsWith(head + Tail(clause), AbstractLead + clause)
    ensures clause == "" ==> EndsWith(head + Tail(clause), ReadMore)
    ensures |Tail(clause)| <= |AfterTopics| + |AbstractLead| + Limit
  {
    if clause != "" {
      assert head + Tail(clause) == (head + AfterTopics) + (AbstractLead + clause);
      EndsWithConcat(head + AfterTopics, AbstractLead + clause);
    } else {
      assert head + Tail(clause) == (head + AfterTopics) + ReadMore;
      EndsWithConcat(head + AfterTopics, ReadMore);
    }
  }

  lemma SummaryMentions(title: string, topicText: string, tail: string, topics: seq<string>)
    requires |topics| == 0 ==> topicText == DefaultTopic
    requires forall i :: 0 <= i < |topics| && i < MaxTopics ==> IsInfix(topics[i], topicText)
    ensures StartsWith(Lead(title) + topicText + tail, Opening + title)
    ensures IsInfix(title, Lead(title) + topicText + tail)
    ensures forall i :: 0 <= i < |topics| && i < MaxTopics ==> IsInfix(topics[i], Lead(title) + topicText + tail)
    ensures |topics| == 0 ==> IsInfix(DefaultTopic, Lead(title) + topicText + tail)
    ensures IsInfix(topicText, Lead(title) + topicText + tail)
  {
    var lead := Lead(title);
    TitleMentioned(title, topicText + tail);
    assert lead + topicText + tail == lead + (topicText + tail);
    forall i | 0 <= i < |topics| && i < MaxTopics ensures IsInfix(topics[i], lead + topicText + tail) {
      InfixInMiddle(topics[i], lead, topicText, tail);
    }
    InfixOfItself(topicText);
    InfixInMiddle(topicText, lead, topicText, tail);
  }

  lemma TitleMentioned(title: string, rest: string)
    ensures StartsWith(Lead(title) + rest, Opening + title)
    ensures IsInfix(title, Lead(title) + rest)
  {
    var r := Lead(title) + rest;
    assert r[..|Opening + title|] == Opening + title;
    assert r[|Opening|..|Opening| + |title|] == title;
    assert OccursAt(title, r, |Opening|);
  }

  /** The case of the repository's tests: the title and the second topic
      both occur in the summary. */
  lemma AssetPricingExample()
    ensures var s := SimpleZhSummary("Asset Pricing", "This paper studies risk premiums.", ["Economics", "Finance"]);
            IsInfix("Asset Pricing", s) && IsInfix("Finance", s)
  {
    var topics := ["Economics", "Finance"];
    var s := SimpleZhSummary("Asset Pricing", "This paper studies risk premiums.", topics);
    assert IsInfix(topics[1], s);
  }
}
