/** One run of `build_digest`, without the filesystem: filter the fetched
    papers by citation count, cap their number, and produce the metadata
    record and the two documents. */
module Digest {
  import opened Sequences
  import opened Papers
  import Render

  /** `DigestConfig` without `output_dir`. */
  datatype DigestConfig = DigestConfig(maxPapers: int, minCitations: int)

  /** How many papers meet the citation threshold. */
  function CountQualifying(papers: seq<Paper>, minCitations: int): (n: nat)
    ensures n <= |papers|
  {
    if |papers| == 0 then 0
    else (if papers[0].citedByCount >= minCitations then 1 else 0) + CountQualifying(papers[1..], minCitations)
  }

  /** The papers cited at least `minCitations` times, in fetched order. */
  function Qualifying(papers: seq<Paper>, minCitations: int): (r: seq<Paper>)
    ensures |r| == CountQualifying(papers, minCitations)
    ensures forall i :: 0 <= i < |r| ==> r[i].citedByCount >= minCitations
  {
    if |papers| == 0 then []
    else (if papers[0].citedByCount >= minCitations then [papers[0]] else [])
         + Qualifying(papers[1..], minCitations)
  }

  /** Nothing is merged: a qualifying paper at position `k` is kept at
      position "number of qualifying papers before `k`", so a paper fetched
      twice is kept twice. */
  lemma QualifyingPositions(papers: seq<Paper>, minCitations: int)
    ensures forall k :: 0 <= k < |papers| && papers[k].citedByCount >= minCitations ==>
              CountQualifying(papers[..k], minCitations) < |Qualifying(papers, minCitations)|
              && Qualifying(papers, minCitations)[CountQualifying(papers[..k], minCitations)] == papers[k]
  {
    forall k | 0 <= k < |papers| && papers[k].citedByCount >= minCitations
      ensures CountQualifying(papers[..k], minCitations) < |Qualifying(papers, minCitations)|
              && Qualifying(papers, minCitations)[CountQualifying(papers[..k], minCitations)] == papers[k]
    {
      QualifyingPosition(papers, minCitations, k);
    }
  }

  /** The position of one qualifying paper `k`. */
  lemma {:induction false} QualifyingPosition(papers: seq<Paper>, minCitations: int, k: nat)
    requires k < |papers| && papers[k].citedByCount >= minCitations
    ensures CountQualifying(papers[..k], minCitations) < |Qualifying(papers, minCitations)|
            && Qualifying(papers, minCitations)[CountQualifying(papers[..k], minCitations)] == papers[k]
  {
    if k > 0 {
      var tail := papers[1..];
      var rest := Qualifying(tail, minCitations);
      var c := CountQualifying(tail[..k - 1], minCitations);
      QualifyingPosition(tail, minCitations, k - 1);
      assert papers[..k] == [papers[0]] + tail[..k - 1];
      assert tail[k - 1] == papers[k];
      if papers[0].citedByCount >= minCitations {
        assert CountQualifying(papers[..k], minCitations) == 1 + c;
        assert Qualifying(papers, minCitations) == [papers[0]] + rest;
      } else {
        assert CountQualifying(papers[..k], minCitations) == c;
        assert Qualifying(papers, minCitations) == rest;
      }
    }
  }

  /** Every kept paper was fetched, and every fetched paper that meets the
      threshold is kept. */
  lemma {:induction false} QualifyingMembers(papers: seq<Paper>, minCitations: int)
    ensures forall i :: 0 <= i < |Qualifying(papers, minCitations)| ==> Qualifying(papers, minCitations)[i] in papers
    ensures forall p :: p in papers && p.citedByCount >= minCitations ==> p in Qualifying(papers, minCitations)
  {
    if |papers| > 0 {
      var rest := Qualifying(papers[1..], minCitations);
      QualifyingMembers(papers[1..], minCitations);
      assert papers == [papers[0]] + papers[1..];
      assert Qualifying(papers, minCitations)
          == (if papers[0].citedByCount >= minCitations then [papers[0]] else []) + rest;
    }
  }

  /** Filtering keeps the fetched order. */
  lemma {:induction false} QualifyingIsSubsequence(papers: seq<Paper>, minCitations: int)
    ensures IsSubsequence(Qualifying(papers, minCitations), papers)
  {
    if |papers| > 0 {
      var rest := Qualifying(papers[1..], minCitations);
      var keep := papers[0].citedByCount >= minCitations;
      QualifyingIsSubsequence(papers[1..], minCitations);
      SubsequenceConsChoice(rest, papers[0], papers[1..], keep);
      assert [papers[0]] + papers[1..] == papers;
      assert Qualifying(papers, minCitations) == (if keep then [papers[0]] else []) + rest;
    }
  }

  /** Filtering with the threshold already met by every paper keeps them all. */
  lemma {:induction false} QualifyingKeepsAll(papers: seq<Paper>, minCitations: int)
    requires forall i :: 0 <= i < |papers| ==> papers[i].citedByCount >= minCitations
    ensures Qualifying(papers, minCitations) == papers
  {
    if |papers| > 0 {
      QualifyingKeepsAll(papers[1..], minCitations);
      assert [papers[0]] + papers[1..] == papers;
    }
  }

  /** Line 205 of `build_digest`: the first `max_papers` of the papers that
      meet the citation threshold. */
  function Select(papers: seq<Paper>, config: DigestConfig): (r: seq<Paper>)
    requires config.maxPapers >= 0
    ensures |r| <= config.maxPapers
    ensures forall i :: 0 <= i < |r| ==> r[i].citedByCount >= config.minCitations
    ensures IsPrefix(r, Qualifying(papers, config.minCitations))
    ensures |r| == Min(config.maxPapers, |Qualifying(papers, config.minCitations)|)
  {
    var kept := Qualifying(papers, config.minCitations);
    kept[..Min(config.maxPapers, |kept|)]
  }

  /** The selected papers are an order-preserving selection of the fetched
      ones. */
  lemma SelectIsSubsequence(papers: seq<Paper>, config: DigestConfig)
    requires config.maxPapers >= 0
    ensures IsSubsequence(Select(papers, config), papers)
  {
    var kept := Qualifying(papers, config.minCitations);
    QualifyingIsSubsequence(papers, config.minCitations);
    PrefixOfSubsequence(kept, papers, Min(config.maxPapers, |kept|));
  }

  /** Selecting again with the same configuration changes nothing. */
  lemma SelectIdempotent(papers: seq<Paper>, config: DigestConfig)
    requires config.maxPapers >= 0
    ensures Select(Select(papers, config), config) == Select(papers, config)
  {
    QualifyingKeepsAll(Select(papers, config), config.minCitations);
  }

  /** The `digest.json` record. */
  datatype Metadata = Metadata(date: string, count: int, papers: seq<Paper>)

  /** What one run writes: the dated JSON, Markdown and HTML, and the
      copies under `latest` (which receives no JSON). */
  datatype Outputs = Outputs(
    metadata: Metadata,
    markdown: string,
    htmlBody: string,
    latestMarkdown: string,
    latestHtmlBody: string)

  /** `build_digest` given the fetched papers and the run date as text. */
  function BuildDigest(config: DigestConfig, date: string, fetched: seq<Paper>): (out: Outputs)
    requires config.maxPapers >= 0
    ensures out.metadata.date == date
    ensures out.metadata.count == |out.metadata.papers| <= config.maxPapers
    ensures out.metadata.papers == Select(fetched, config)
    ensures out.markdown == Render.RenderMarkdown(date, out.metadata.papers)
    ensures out.htmlBody == Render.HtmlBody(date, out.metadata.papers)
    ensures out.latestMarkdown == out.markdown && out.latestHtmlBody == out.htmlBody
  {
    var papers := Select(fetched, config);
    var markdown := Render.RenderMarkdown(date, papers);
    var html := Render.HtmlBody(date, papers);
    Outputs(Metadata(date, |papers|, papers), markdown, html, markdown, html)
  }
}
