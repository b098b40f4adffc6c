/** The canonical paper record and the normalisation of one raw OpenAlex
    work into it (the loop body of `fetch_openalex_papers`). Every field has
    a default, so normalisation is total. */
module Papers {
  import opened Optional
  import opened Text
  import opened AbstractIndex
  import opened Names
  import opened Sequences
  import Summary

  /** A normalised paper (`Paper`). */
  datatype Paper = Paper(
    title: string,
    authors: seq<string>,
    venue: string,
    publishedDate: string,
    doiUrl: string,
    openalexUrl: string,
    citedByCount: int,
    abstractText: string,
    summaryZh: string,
    topics: seq<string>)

  /** `source` of a work's primary location. */
  datatype Source = Source(displayName: Option<string>)

  /** `primary_location`; `source` is None when the key is absent. */
  datatype Location = Location(source: Option<Source>)

  /** One element of the `results` list. An `Option` field is None when the
      key is absent (or, for the string fields, null); a missing list field
      is the empty list. */
  datatype Work = Work(
    title: Option<string>,
    authorships: seq<Authorship>,
    primaryLocation: Option<Location>,
    publicationDate: Option<string>,
    doi: Option<string>,
    id: Option<string>,
    citedByCount: Option<int>,
    abstractIndex: Option<IndexedAbstract>,
    concepts: seq<Concept>)

  const UntitledTitle := "Untitled"
  const UnknownVenue := "Unknown"
  const DoiResolver := "https://doi.org/"

  /** The display name of the source of the work's primary location; None
      when the location, its source or the name is missing. */
  function VenueName(w: Work): Option<string> {
    match w.primaryLocation
    case None => None
    case Some(loc) =>
      match loc.source
      case None => None
      case Some(src) => src.displayName
  }

  /** The DOI as a URL: an absolute URL is kept, a bare identifier gets the
      resolver prefix, and a missing or empty DOI gives no URL. */
  function DoiUrl(doi: Option<string>): (r: string)
    ensures r == "" <==> !Truthy(doi)
    ensures r != "" ==> StartsWith(r, "http")
    ensures Truthy(doi) && StartsWith(doi.value, "http") ==> r == doi.value
    ensures Truthy(doi) && !StartsWith(doi.value, "http") ==> r == DoiResolver + doi.value
  {
    var d := OrElse(doi, "");
    if StartsWith(d, "http") then d else if d != "" then DoiResolver + d else ""
  }

  /** Canonicalising a DOI URL a second time changes nothing. */
  lemma DoiUrlIdempotent(doi: Option<string>)
    ensures DoiUrl(Some(DoiUrl(doi))) == DoiUrl(doi)
  {
  }

  predicate WellFormed(w: Work) {
    FieldNonNegative(w.abstractIndex)
  }

  /** The per-record body of `fetch_openalex_papers`. */
  function Normalize(w: Work): (p: Paper)
    requires WellFormed(w)
    ensures p.title != "" && p.venue != ""
    ensures Truthy(w.title) ==> p.title == w.title.value
    ensures !Truthy(w.title) ==> p.title == UntitledTitle
    ensures Truthy(VenueName(w)) ==> p.venue == VenueName(w).value
    ensures !Truthy(VenueName(w)) ==> p.venue == UnknownVenue
    ensures Truthy(w.publicationDate) ==> p.publishedDate == w.publicationDate.value
    ensures !Truthy(w.publicationDate) ==> p.publishedDate == ""
    ensures p.doiUrl == "" || StartsWith(p.doiUrl, "http")
    ensures p.doiUrl == DoiUrl(w.doi)
    ensures p.doiUrl == "" <==> !Truthy(w.doi)
    ensures w.id.None? ==> p.openalexUrl == ""
    ensures w.id.Some? ==> p.openalexUrl == w.id.value
    ensures w.citedByCount.None? ==> p.citedByCount == 0
    ensures w.citedByCount.Some? ==> p.citedByCount == w.citedByCount.value
    ensures |p.authors| <= MaxNames && |p.topics| <= MaxNames
    ensures p.authors == AuthorList(w.authorships)
    ensures p.topics == TopicNames(w.concepts)
    ensures p.abstractText == AbstractText(w.abstractIndex)
    ensures p.summaryZh == Summary.SimpleZhSummary(p.title, p.abstractText, p.topics)
    ensures IsInfix(p.title, p.summaryZh)
  {
    var title := OrElse(w.title, UntitledTitle);
    var authors := AuthorList(w.authorships);
    var venue := OrElse(VenueName(w), UnknownVenue);
    var publishedDate := OrElse(w.publicationDate, "");
    var doiUrl := DoiUrl(w.doi);
    var openalexUrl := match w.id case Some(u) => u case None => "";
    var citedByCount := match w.citedByCount case Some(n) => n case None => 0;
    var abstractText := AbstractText(w.abstractIndex);
    var topics := TopicNames(w.concepts);
    var summaryZh := Summary.SimpleZhSummary(title, abstractText, topics);
    Paper(title, authors, venue, publishedDate, doiUrl, openalexUrl, citedByCount, abstractText, summaryZh, topics)
  }

  /** The loop of `fetch_openalex_papers` over the decoded `results`: one
      paper per work, in the same order. */
  method NormalizeAll(works: seq<Work>) returns (papers: seq<Paper>)
    requires forall i :: 0 <= i < |works| ==> WellFormed(works[i])
    ensures |papers| == |works|
    ensures forall i :: 0 <= i < |works| ==> papers[i] == Normalize(works[i])
  {
    papers := MapSeq(works, Normalize);
  }
}
